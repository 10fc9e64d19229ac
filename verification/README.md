# Verified model of the DeepFry read path, author walk, follow levelling and quarantine rescue

This project models four parts of the repository and proves what they are for.

**The LMDB read path** (`Bytes`, `Comparators`, `Hex`, `Scan`, `Merge`, `Router`, `Engine`,
`Paging`, `Latest`, `Aliases`). A filter is routed to one of six `Event__*` indexes and turned into
start keys; each start key becomes a reverse windowed scan; the scans are merged by a heap;
a bounded round loop drops what the filter does not accept and builds the next cursor.
The main results: one page returns exactly the accepted events between its two cursors,
whatever strfry writes between any two transactions; following cursors to the end
gives "filter everything, sort by (created_at, levId) descending"; and the condition on the tag index
under which this holds, with what goes wrong in a stream, a round and a page without it.

**The author walk** (`Authors`, `Enumerate`). `distinct_authors` seeks from author to author;
`enumerate::run` consumes its pages with an asynchronous writer, a flush barrier, a durable
cursor, retries, resumes and crashes. The main results: seek-skip is the sorted set of authors,
paged; and a run is safe throughout, with writer failures and crashes at any step, if and only if
no page that held something new was in the queue when the writer failed and was relied on all the same.

**Levelling and scoring** (`Bfs`, `Score`). BFS levels are shortest follow distances for any finite
graph and any cap, and the count taken from the partial adjacency equals the count over the
whole graph.

**The quarantine rescue** (`Forwarder`, `Deleter`). For every interleaving of the worker pool each
id is accounted for once, each pubkey is published in order by one worker, the pool cannot
get stuck, and whatever is deleted from quarantine was accepted by the main relay;
halve-and-retry deletion judges every id once whatever fails.

## How things are modelled

- A key of at least 8 bytes is the pair of its prefix and its trailing little-endian
  `created_at` (`Comparators.Key`, a bijection with the bytes). The comparators are modelled
  on bytes and proved to be the order "prefix, then created_at". The scan and merge code takes the
  order as a value, as the source takes a comparator type parameter.
- An index is a history of snapshots, one per read transaction (`Scan.SubDb`). `must` is any set of
  entries present in every snapshot and `may` any set containing every snapshot, so contracts
  cover concurrent inserts and deletions; an index nobody writes to has `must == may`. Indexes and
  payloads belong to one environment (`Scan.Env`) and share its sequence of transactions, so a query fails
  only on a payload that was indexed in one of its transactions and gone in a later one (`Engine.Vanished`).
- `Scan.RangeOf` states what LMDB's `range` and `rev_range` yield, including the inclusive reverse bound
  that yields only the smallest duplicate of the bound key.
- `enumerate::run` and `Forward` are state machines over their steps, because writer commits, crashes and other
  workers come between any two of them; the results hold for every run.
- The heap leaves the choice among equal ranks open. Hydration, the clock, the relay, the expander,
  the delete runner and the GraphQL client are parameters.

Hypotheses the code relies on, stated in the contracts: window sizes are at least 1 and index values
are levIds; no two levIds share one key with created_at = u64::MAX (`Scan.SingleAtMax`; exact
condition in `Scan.MaxTimestampIsCompleteIff`); the timestamp in a key is the event's
`created_at`; what the filter accepts (expiry included) does not change during a walk. Where a contract
promises success, no payload disappears once its event is indexed (`Engine.StaysStored`), while new events may come in
at any time. Where it promises the exact page from the tag index, no stored key of a shorter value aliases a requested
prefix (`Merge.NoAlias`, `Engine.Clean`); the methods themselves run on every store.

## Where the code falls short of its own description

- The prefix guard tests bytes of the whole key. A shorter tag value whose timestamp bytes complete the
  requested prefix, an alias, passes it. `Aliases.StreamIsTheGroupIff` gives the exact condition for a stream: it
  delivers nothing but its group, for every window size, if and only if no alias is stored or it stops at once.
  - A merge comes out of order even when the entry just below the group is no alias, because a window
    that overshoots the group leaves the stream open: `Aliases.AliasIsDeliveredOutOfOrder`.
  - A page returns an event newer than `until`, because the residual check looks at tags and not at the time:
    `Aliases.AliasEscapesUntil` proves it of the whole query on a store with one event. An alias whose event does not carry
    the requested tag is dropped by that check, and then the page can still be right.
  - A full batch that ends with an alias lifts the boundary, and the next round is asked for the same rows again:
    `Aliases.AliasLiftsTheBoundary`.
- At created_at = u64::MAX the reverse scan falls back to the inclusive bound and loses duplicates:
  `Scan.MaxTimestampLosesADuplicate`, with the exact condition in `Scan.MaxTimestampIsCompleteIff`.
- A filter routed to tags without a one-byte tag name returns nothing, although events pass the residual
  check: `Router.LongTagNameIsNotReached`, with the exact condition in `Router.AcceptedEventsAreReachedIff` and
  `Paging.PaginationIsNaiveQueryIff`.
- `Store::flush` documents that the batch is durable either way, but returns normally when the writer thread
  has failed without committing; the cursor is then stored past lost authors:
  `Enumerate.FailedWriterBreaksSafety`. `Enumerate.WalkIsSafeIff` gives the exact condition, in terms of the queue at the
  moment of the failure, and `Enumerate.CrashSafety` what a checked acknowledgement would be enough for.

## Model

| member | source | states |
|---|---|---|
| `Comparators.KeyBytesRoundTrip` | LMDB2GraphQL/src/query/router.rs:309-312 | splitting a key into prefix and trailing created_at and joining them are inverse to each other |
| `Comparators.CompareIsKeyOrder` | LMDB2GraphQL/reference/golpe_comparators.cpp:31-121 | each index comparator is the order "prefix, then created_at" and reports equality only on identical bytes |
| `Comparators.OrderIsLawful` | LMDB2GraphQL/reference/golpe_comparators.cpp:47-121 | every index orders its prefixes strictly and totally |
| `Comparators.PrefixGroupIsContiguous` | LMDB2GraphQL/reference/golpe_comparators.cpp:47-121 | a key between two keys of one prefix has that prefix and a timestamp in between |
| `Comparators.ReverseUpperBoundOnKeys` | LMDB2GraphQL/src/lmdb/scan.rs:359-390 | the rebuilt bound is the key with ts + 1, or the key itself at u64::MAX |
| `Comparators.ExcludedSuccessorIsInclusive` | LMDB2GraphQL/src/lmdb/scan.rs:325-358 | strictly below prefix and ts + 1 is the same as at or below prefix and ts |
| `Comparators.GuardSplitsThreeWays` | LMDB2GraphQL/src/query/merge.rs:172-182 | the byte guard accepts the prefix, longer prefixes above it and aliases below it; the last two only among tags |
| `Hex.DecodeHex` | LMDB2GraphQL/src/query/router.rs:36-58 | the loop computes the recursive decoding, with its failures |
| `Hex.HexDecodeOfEncode` | LMDB2GraphQL/src/graphql/resolvers.rs:492-499 | decoding an encoded pubkey gives it back |
| `Hex.HexEncodeOfDecode` | LMDB2GraphQL/src/query/router.rs:36-58 | lowercase hex of even length decodes and re-encodes to itself |
| `Hex.HexPreservesOrder` | LMDB2GraphQL/src/graphql/resolvers.rs:492-499 | hex text of equal length sorts as the bytes do |
| `Hex.HexDecodeExactly` | LMDB2GraphQL/src/query/router.rs:36-58 | what is accepted is exactly text of even length made of hex digits of either case, and it decodes to the bytes whose encoding is its lowercase form |
| `Scan.RangeIsOrdered` | LMDB2GraphQL/src/lmdb/scan.rs:425-470 | an iterator yields its entries in scan order, and exactly the ones in range |
| `Scan.RangeIsWhatIsAhead` | LMDB2GraphQL/src/lmdb/scan.rs:512-571 | a window opened at a resume position iterates exactly what is ahead of it, in both directions |
| `Scan.StartBoundIsReverseUpperBound` | LMDB2GraphQL/src/lmdb/scan.rs:359-390 | the bytes handed to rev_range for a first window are the bound of the model |
| `Scan.MaxTimestampIsCompleteIff` | LMDB2GraphQL/src/lmdb/scan.rs:385-388 | the first reverse window at u64::MAX is complete if and only if the bound key has at most one levId |
| `Scan.MaxTimestampLosesADuplicate` | LMDB2GraphQL/src/lmdb/scan.rs:332-341 | an index with two levIds at u64::MAX of which the scan never yields the larger |
| `Scan.CollectWindow` | LMDB2GraphQL/src/lmdb/scan.rs:499-594 | the window is the shortest full head of the iteration that ends on a key boundary |
| `Scan.WindowOvershootsInOneGroup` | LMDB2GraphQL/src/lmdb/scan.rs:494-498 | entries beyond the window size all share the last key |
| `Scan.WindowEndsOnKeyBoundary` | LMDB2GraphQL/src/lmdb/scan.rs:486-498 | everything after a window is strictly beyond its last key |
| `Scan.OneWindow` | LMDB2GraphQL/src/lmdb/scan.rs:276-323 | a durable entry ahead of the position is in the batch or still ahead of the next position; the batch is no longer ahead |
| `Scan.ScanWindowed` | LMDB2GraphQL/src/lmdb/scan.rs:182-241 | for every window size and direction: in order, no repeat, every durable entry; equal to the unwindowed range on a still index |
| `Scan.ScanBounded` | LMDB2GraphQL/src/lmdb/scan.rs:104-144 | the first `limit` entries of that range from one snapshot; for 0 the windowed scan, with every durable entry |
| `Merge.GuardKeepsTheGroup` | LMDB2GraphQL/src/query/merge.rs:172-182 | without aliases, take_while keeps exactly the entries of the prefix |
| `Merge.TagGuardIsFooledByAliasesOnly` | LMDB2GraphQL/src/query/merge.rs:172-182 | in the tag index the hypothesis is precisely that no stored key is an alias |
| `Merge.FixedWidthHasNoAlias` | LMDB2GraphQL/src/lmdb/indexes.rs:5-12 | the five fixed-width indexes need no such hypothesis |
| `Merge.AfterSifting` | LMDB2GraphQL/src/query/merge.rs:172-243 | guard, floor and since cut leave a stream with a head or exhausted, and without losing a durable eligible entry |
| `Merge.StreamState.Refill` | LMDB2GraphQL/src/query/merge.rs:136-253 | on any store the buffer holds only entries read meanwhile that pass the sieve, and there is a head or the stream is exhausted; without aliases no durable eligible entry has been lost |
| `Merge.AfterAFlooredWindow` | LMDB2GraphQL/src/query/merge.rs:191-215 | a window emptied by the floor has drained the floor second of its prefix and lost nothing |
| `Merge.SecondWindowIsUntouched` | LMDB2GraphQL/src/query/merge.rs:146-152 | the window after it keeps at least one guarded entry, so two attempts suffice |
| `Merge.AfterLeavingTheGroup` | LMDB2GraphQL/src/query/merge.rs:184-189 | a window without a guarded entry means the prefix is finished |
| `Merge.CutMeansDone` | LMDB2GraphQL/src/query/merge.rs:217-231 | once one entry is older than since, so is everything ahead in that stream |
| `Merge.PopMax` | LMDB2GraphQL/src/query/merge.rs:65-79 | a candidate no other candidate outranks |
| `Merge.HeadOutranksStream` | LMDB2GraphQL/src/query/merge.rs:274-281 | a buffered head outranks everything its stream can still deliver, across windows |
| `Merge.EmitOne` | LMDB2GraphQL/src/query/merge.rs:346-370 | emitting the greatest head keeps order, distinctness and completeness |
| `Merge.MergeWindowed` | LMDB2GraphQL/src/query/merge.rs:303-373 | on any store only entries read meanwhile that pass a sieve, a single stream on a still index in its own order; without aliases distinct wanted entries, newest first, and of the durable ones all, or the emit-limit greatest |
| `Merge.MergeIsHeadOfSortedUnion` | LMDB2GraphQL/src/query/merge.rs:255-302 | on a still index, rank by rank the first emit-limit elements of the sorted union of all streams |
| `Router.BuildStartKeys` | LMDB2GraphQL/src/query/router.rs:131-294 | one key per prefix the filter asks for, with the given bound, pairwise distinct |
| `Router.SortDedup` | LMDB2GraphQL/src/query/router.rs:288-294 | the same keys in strictly ascending byte order |
| `Router.SelectIndex` | LMDB2GraphQL/src/query/router.rs:92-106 | which index, as an if and only if for each of the six |
| `Router.IsExpired` | LMDB2GraphQL/src/query/engine.rs:67-82 | true exactly when some readable, non-zero expiration is not after the clock |
| `Router.PassesResidual` | LMDB2GraphQL/src/query/engine.rs:312-344 | the loops drop an event exactly if its kind, its author or its id is not listed, or some tag filter matches none of its tags by name and value |
| `Router.FieldsAreConjoined` | LMDB2GraphQL/src/query/engine.rs:320-344 | a field or tag filter added to a filter accepts exactly what passed before and meets that field alone |
| `Router.ParseExactly` | LMDB2GraphQL/src/query/engine.rs:74-78 | what is read as a timestamp is exactly a decimal number of 64 bits, with an optional plus sign and leading zeros |
| `Router.ExpiredExactly` | LMDB2GraphQL/src/query/engine.rs:67-82 | an event is expired if and only if some tag "expiration" holds such a number that is positive and not after the clock |
| `Router.TagPrefixLayout` | LMDB2GraphQL/src/query/router.rs:131-294 | a tag prefix is the name and then 32 bytes that encode back to a value of 64 lowercase hex digits, or the value itself |
| `Router.Hex32Exactly` | LMDB2GraphQL/src/query/router.rs:36-58 | ids and pubkeys are given by exactly the texts of 64 hex digits of either case |
| `Router.HexKeyIsEncoding` | spamhunter/pubkey_iterator/src/enumerate.rs:120-125 | valid pubkeys are exactly the lowercase encodings of 32 bytes |
| `Router.ExpiryIsFinal` | LMDB2GraphQL/src/query/engine.rs:67-82 | an expired event stays expired |
| `Router.AcceptedEventsAreReachedIff` | LMDB2GraphQL/src/query/router.rs:92-106 | an accepted event lies under a start prefix of the selected index, if and only if a tag-routed filter has a one-byte tag name |
| `Router.LongTagNameIsNotReached` | LMDB2GraphQL/src/graphql/resolvers.rs:371-376 | a filter on a two-byte tag name accepts an event that no start prefix reaches |
| `Engine.Payloads.Hydrate` | LMDB2GraphQL/src/query/hydrate.rs:55-82 | decodable pairs in input order if each levId is stored in its own transaction; otherwise the first missing one is the error |
| `Engine.Payloads.HydrateBatch` | LMDB2GraphQL/src/query/hydrate.rs:110-139 | the same in one transaction, succeeding if and only if every levId is stored in it |
| `Engine.WantedIsInScope` | LMDB2GraphQL/src/query/engine.rs:225-250 | a round asks the merge for exactly the ranks below its boundary, or up to until in the first round |
| `Engine.ExclusionIsRedundant` | LMDB2GraphQL/src/query/engine.rs:259-274 | cursor exclusion removes nothing the floor has not removed |
| `Engine.Harvest` | LMDB2GraphQL/src/query/engine.rs:280-351 | one row per accepted rank, strictly newest first, even when several streams hold the event |
| `Engine.RoundFillsPage` | LMDB2GraphQL/src/query/engine.rs:417-421 | a full page covers every durable hit down to its last row |
| `Engine.RoundExhausts` | LMDB2GraphQL/src/query/engine.rs:252-254 | an exhausted merge covers every durable hit that is left |
| `Engine.RoundLeavesBoundary` | LMDB2GraphQL/src/query/engine.rs:353-394 | a full round moves the boundary strictly down and has dealt with everything above it |
| `Engine.RoundIsTurn` | LMDB2GraphQL/src/query/engine.rs:403-439 | in all four cursor cases, the budget stop included, the page strands nothing |
| `Engine.TurnFollows` | LMDB2GraphQL/src/query/engine.rs:353-394 | without aliases the loop stops only on a full page, exhaustion or the round budget: the no-progress branch is dead |
| `Engine.StalledPageStepsDown` | LMDB2GraphQL/src/query/engine.rs:380-389 | the fallback cursor of a stalled page is the highest position below the second it is stuck in |
| `Engine.TakeTurn` | LMDB2GraphQL/src/query/engine.rs:220-394 | one turn of the loop keeps every row sound on any store, and without aliases ends in a page or in the invariant below a new boundary |
| `Engine.ExecuteQuery` | LMDB2GraphQL/src/query/engine.rs:146-443 | on the filter's own fields: accepted events in [since, until], or below the cursor, newest first, and of the durable ones all down to the returned cursor (for tags without aliases); a page stops short only after 8 full rounds; on any store every row is accepted and not older than since, and failure means a payload that vanished between two transactions |
| `Engine.FixedWidthIsClean` | LMDB2GraphQL/src/lmdb/indexes.rs:5-12 | for the five fixed-width indexes the page contract needs no alias hypothesis |
| `Paging.PageExtendsWalk` | LMDB2GraphQL/src/query/engine.rs:403-439 | pages join without gap or repeat |
| `Paging.CursorMovesDown` | LMDB2GraphQL/src/query/engine.rs:417-439 | a returned cursor is strictly below the incoming one and leaves fewer index entries |
| `Paging.WalkPages` | LMDB2GraphQL/src/query/engine.rs:2172-2208 | following cursors terminates with every durable hit once, newest first, whatever is written meanwhile; it fails only on a vanished payload |
| `Paging.PaginationIsNaiveQueryIff` | LMDB2GraphQL/src/query/engine.rs:146-443 | on a still store the concatenated pages are the naive answer if and only if the filter is routable or nothing is accepted |
| `Paging.NaiveAnswerIsUnique` | LMDB2GraphQL/src/query/filter.rs:96-103 | the naive answer is one list |
| `Paging.AnswerInPages` | LMDB2GraphQL/src/query/engine.rs:146-443 | the whole read path computes the naive answer |
| `Paging.StreamsAreDisjoint` | LMDB2GraphQL/src/query/router.rs:288-294 | outside the tag index no levId is eligible for two start keys |
| `Aliases.RangeAfterWindow` | LMDB2GraphQL/src/lmdb/scan.rs:276-323 | the range from the resume key of a window is exactly the rest of the range the window was taken from |
| `Aliases.StreamIsTheGroupIff` | LMDB2GraphQL/src/query/merge.rs:136-253 | a stream delivers only its prefix group, for every window size, since and floor, if and only if no alias is stored or it stops at once; with a non-empty group, if and only if no alias is stored |
| `Aliases.AliasIsDeliveredOutOfOrder` | LMDB2GraphQL/src/query/merge.rs:172-189 | an index in which the entry below the group is no alias and the merge still emits 5 before 97 |
| `Aliases.AliasLiftsTheBoundary` | LMDB2GraphQL/src/query/engine.rs:353-394 | for every limit up to 500 and every window size: a full batch ending with an alias, after which the next round is asked for every other entry again |
| `Aliases.AliasEscapesUntil` | LMDB2GraphQL/src/query/engine.rs:303-344 | a store with one event on which the query returns that event although it is newer than until |
| `Latest.ScanMeetsTheNewest` | LMDB2GraphQL/src/query/engine.rs:501-531 | matching keys are a head of the reverse scan, so a bounded scan finds the newest of them |
| `Latest.NewestIsMerge` | LMDB2GraphQL/src/query/engine.rs:494-531 | these are exactly the newest entries whose key is the pubkey and the 8 bytes of the kind, newest first |
| `Latest.SurvivorsAreTheBucket` | LMDB2GraphQL/src/query/engine.rs:541-555 | hydrating them and dropping the expired keeps exactly the decodable, unexpired entries, each once, in order |
| `Latest.BucketIsNewestFirst` | LMDB2GraphQL/src/query/engine.rs:551-555 | a bucket is newest first by created_at |
| `Latest.NewestAreUnique` | LMDB2GraphQL/src/query/engine.rs:468-563 | on a still index the newest entries do not depend on who asks or in which order |
| `Latest.BucketIsUnique` | LMDB2GraphQL/src/query/engine.rs:541-555 | and they determine the bucket |
| `Latest.AuthorBucket` | LMDB2GraphQL/src/query/engine.rs:494-555 | the bucket lists the events of the decodable, unexpired ones among the newest entries of the pubkey and kind, each once, newest first; it fails only on a vanished payload |
| `Latest.LatestPerAuthor` | LMDB2GraphQL/src/query/engine.rs:468-563 | every requested author has that bucket, malformed authors and empty buckets have none |
| `Authors.IncrementBe` | LMDB2GraphQL/src/query/authors.rs:51-65 | adds one to the big-endian value, or reports that every byte carried |
| `Authors.SuccessorIsNext` | LMDB2GraphQL/src/query/authors.rs:40-50 | the strings above a pubkey are exactly those not below its successor |
| `Authors.SeekLandsOnNextAuthor` | LMDB2GraphQL/src/query/authors.rs:152-179 | the first entry at or above the seek key belongs to the least author at or above it |
| `Authors.DistinctAuthors` | LMDB2GraphQL/src/query/authors.rs:111-202 | the first `limit` distinct authors beyond the cursor in byte order, at most one seek per slot |
| `Authors.WalkAuthors` | LMDB2GraphQL/src/query/authors.rs:82-110 | paging returns every author exactly once in order and stops |
| `Authors.LowercaseIsNormal` | LMDB2GraphQL/src/graphql/resolvers.rs:256-262 | cursors the server hands out are accepted and denote themselves |
| `Authors.ServeAuthors` | LMDB2GraphQL/src/graphql/resolvers.rs:200-263 | rejects exactly the malformed cursors; otherwise an ascending page of stored authors beyond the cursor, complete up to its end, of the requested size clamped to 1..500 (100 by default), with an end cursor exactly if it is full |
| `Enumerate.Retry` | spamhunter/pubkey_iterator/src/enumerate.rs:73-110 | at most five attempts, stopping at the first success or error that is not transient, with sleeps of 250, 500, 1000 and 2000 ms |
| `Enumerate.LatestUnfinished` | spamhunter/pubkey_iterator/src/store/mod.rs:113-134 | the greatest run id that is not done |
| `Enumerate.PageKeepsInv` | spamhunter/pubkey_iterator/src/enumerate.rs:222-241 | after a page is queued every author up to its end cursor is durable, queued or dropped |
| `Enumerate.StepKeepsInv` | spamhunter/pubkey_iterator/src/enumerate.rs:160-297 | every step, crash and writer action keeps the invariant, unless the walk relies on a barrier whose page was lost |
| `Enumerate.WalkIsSafeIff` | spamhunter/pubkey_iterator/src/enumerate.rs:160-297 | in every state the stored cursors are safe and a good return is complete, if and only if every page queued when the writer failed, and relied on afterwards, held nothing that was not durable already |
| `Enumerate.TrustedFailureIsABarrier` | spamhunter/pubkey_iterator/src/store/mod.rs:333-344 | a lost page is relied on only through a barrier that returned on a dead writer |
| `Enumerate.CrashSafety` | spamhunter/pubkey_iterator/src/enumerate.rs:243-256 | with writer failures at any step, a run is safe throughout as long as no barrier returns to a queued page on a dead writer |
| `Enumerate.CompleteWhenReturned` | spamhunter/pubkey_iterator/src/enumerate.rs:248-297 | a walk last started without a limit never stops early: if it returns well it has walked to the end and has every author durable |
| `Enumerate.LimitedWalkStopsInTime` | spamhunter/pubkey_iterator/src/enumerate.rs:258-271 | a walk that returns well short of the end had a limit, its pages held that many valid authors, and without the last page they did not |
| `Enumerate.FirstRequest` | spamhunter/pubkey_iterator/src/enumerate.rs:170-183 | a resumed walk first asks beyond the stored cursor of the latest unfinished run, any other from the beginning into a new run |
| `Enumerate.NextRequest` | spamhunter/pubkey_iterator/src/enumerate.rs:196-256 | every further page is asked for beyond the cursor just stored, or from the beginning after a rejected cursor |
| `Enumerate.StoredCursorIsPageEnd` | spamhunter/pubkey_iterator/src/enumerate.rs:248-253 | the cursor that is stored is the end cursor of the last page |
| `Enumerate.RowsChangeOnly` | spamhunter/pubkey_iterator/src/enumerate.rs:160-297 | run rows are created only at a start, cursors move only when stored, statuses only by abort or by marking done |
| `Enumerate.FailuresEndTheWalk` | spamhunter/pubkey_iterator/src/enumerate.rs:215-221 | a failed probe, request or store call ends the walk with an error and leaves every cursor in place |
| `Enumerate.DoneMeansReturned` | spamhunter/pubkey_iterator/src/enumerate.rs:285-297 | a run is done only after a walk into it returned well, so an aborted one can be resumed |
| `Enumerate.OnlyFetchedIsWritten` | spamhunter/pubkey_iterator/src/enumerate.rs:222-234 | nothing is written but valid authors that some page contained |
| `Enumerate.WritesAreCommits` | spamhunter/pubkey_iterator/src/store/writer.rs:56-127 | authors become durable only by a commit, which takes whole batches from the front of the queue |
| `Enumerate.FailedWriterBreaksSafety` | spamhunter/pubkey_iterator/src/store/mod.rs:333-344 | a six-step run in which the barrier returns after a writer failure and the cursor passes a lost author |
| `Bfs.RecordLevel` | spam-explorer/internal/bfs/bfs.go:75-91 | the unseen followees get the next level once and form the next frontier; the lists are recorded in full |
| `Bfs.NextLevelIsExact` | spam-explorer/internal/bfs/bfs.go:39-49 | they are exactly the nodes at the next shortest distance |
| `Bfs.EmptyFrontierIsEverything` | spam-explorer/internal/bfs/bfs.go:50-53 | an empty frontier means every reachable node is levelled |
| `Bfs.Level` | spam-explorer/internal/bfs/bfs.go:54-98 | every node within the cap at its shortest distance, nothing else, and exactly the out-edges of nodes below the cap |
| `Score.Score` | spam-explorer/internal/score/score.go:39-57 | each target's count is the number of list entries of strictly shallower followers |
| `Score.ValidFollowersAreOneLevelUp` | spam-explorer/internal/score/score.go:7-26 | a valid follower in the full graph sits exactly one level up and was expanded |
| `Score.VotesAreValidFollowers` | spam-explorer/internal/score/score.go:7-26 | a counted entry exists if and only if the follower is valid in the full graph |
| `Score.ScoreIsExact` | spam-explorer/internal/score/score.go:39-57 | with distinct follows the score is the number of valid followers in the full graph, and every levelled node but the seed is scored |
| `Score.OnlyLeveledAreScored` | spam-explorer/internal/score/score.go:47-50 | targets beyond the cap are not scored |
| `Forwarder.StableSortSorts` | quarantine-rescuer/internal/forwarder/forwarder.go:143-146 | oldest first, the same events |
| `Forwarder.StableSortIsStable` | quarantine-rescuer/internal/forwarder/forwarder.go:143-146 | events of one second keep their order |
| `Forwarder.StepConserves` | quarantine-rescuer/internal/forwarder/forwarder.go:78-154 | no step loses or duplicates an id |
| `Forwarder.StepKeepsInv` | quarantine-rescuer/internal/forwarder/forwarder.go:89-154 | every step keeps ownership of pubkeys, publish order and acceptance of successes |
| `Forwarder.EveryEventIsAccountedFor` | quarantine-rescuer/internal/forwarder/forwarder.go:65-159 | for every interleaving: each id in success or failed as often as exported and in success as often as delivered, per-pubkey order by one worker and only its own events, successes accepted |
| `Forwarder.SuccessesAreDeliveries` | quarantine-rescuer/internal/forwarder/forwarder.go:102-129 | in every state an id is in success exactly as often as a connected worker, before any cancellation, sent it decodable and had it acknowledged |
| `Forwarder.PublishedIsSent` | quarantine-rescuer/internal/forwarder/forwarder.go:104-119 | exactly the steps that send publish, and an id becomes accepted only by being sent and accepted |
| `Forwarder.GoodRunForwardsEverything` | quarantine-rescuer/internal/forwarder/forwarder.go:65-159 | with good connections, no cancellation, decodable events and acknowledged publishes everything is forwarded and nothing fails |
| `Forwarder.StepDecreasesMeasure` | quarantine-rescuer/internal/forwarder/forwarder.go:155-156 | every run of the pool is finite |
| `Forwarder.NoDeadlock` | quarantine-rescuer/internal/forwarder/forwarder.go:133-156 | an unfinished pool with a worker can always step |
| `Forwarder.DeleteForwarded` | quarantine-rescuer/cmd/quarantine-rescue/main.go:170-189 | whatever is deleted was accepted by the main relay, and every exported id is deleted, not deleted or not forwarded |
| `Deleter.PickPartitions` | quarantine-rescuer/internal/deleter/deleter.go:30-34 | deleted and failed ids together are the given ids |
| `Deleter.DeleteBatch` | quarantine-rescuer/internal/deleter/deleter.go:77-105 | one run for the batch, and only on failure runs for its parts, of half the size or below 8 of single ids; a verdict on every id, each backed by a run |
| `Deleter.DeleteRange` | quarantine-rescuer/internal/deleter/deleter.go:71-107 | the same for a range, for any runner, terminating, with no run above the batch size |
| `Deleter.DeleteByIds` | quarantine-rescuer/internal/deleter/deleter.go:65-69 | order-preserving partition of the ids into deleted and failed, in batches of the given size or 500 |
| `Deleter.ExactlyPoisonFails` | quarantine-rescuer/internal/deleter/deleter.go:61-64 | if runs fail exactly on poison ids, exactly the poison ids fail |

## Left out

- LMDB, heed, FFI and zstd internals: taken as the ordered snapshots and ranges of `Scan`.
- Index values shorter than 8 bytes, which the scans skip with a warning: values are levIds.
- `Engine.ExecuteQuery`: promises the exact page from the tag index only without aliases (`Engine.Clean`); with one a page can leave the time range (`Aliases.AliasEscapesUntil`) or repeat a row, though it need not, and at page level the condition is sufficient, not necessary.
- `Merge.StreamState.Refill`: promises that nothing is lost only without aliases (`Merge.NoAlias`), which `Aliases.StreamIsTheGroupIff` shows to be the exact condition for a stream.
- `Merge.MergeWindowed`: promises the sorted union only without aliases, for the same reason.
- `Engine.TakeTurn`: promises the loop invariant only without aliases; an alias lifts the boundary (`Aliases.AliasLiftsTheBoundary`).
- `Paging.WalkPages`: requires a clean tag index, because the walk ends only if cursors move down, and an alias lifts the boundary they are taken from (`Aliases.AliasLiftsTheBoundary`).
- `Paging.AnswerInPages`: requires a clean tag index, because with an alias the answer can hold events outside the requested range.
- `Score.ScoreIsExact`: needs each follow listed once, as the wire query returns them; `Score.Score` itself counts repeated entries.
- `merge_prefixes`, base64 in `PageCursor`, the HTTP server, the GraphQL schema, `meta.rs`, `self_check.rs`, payload tags and the dictionary cache: wrappers or plumbing that would only add easy members.
- The `pubkeys` map returned by `Level`: a lookup table without influence on levels or scores.
- Rollback of committed SQLite transactions on power loss, and run rows changed by anything but the walk and the scoring caller.
- Event content and signatures, logging, timeouts and back-pressure of the relay connection.
- The event-forwarder, exporter, lmdbreader, whitelist client, user interfaces and Dgraph clients.
