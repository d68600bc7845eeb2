# Verified model of the proxy's protocol and cache cores

This project models the parts of the CLI proxy that keep state across calls or transform structured data, in
Dafny, and proves what they promise for every input, every run and every reachable state. Verify it with
`dafny verify dfyconfig.toml`.

What is modelled, file by file of the repository:

* **Header-reordering connection** (`internal/httpwire/ordered_conn.go`). `HeaderOrder` holds the reordering of one
  request head, as a function and as the source's loops over its `used` marks; `StableSort` and `HeaderLaws` prove
  what it keeps, and `HeaderText` tells from the text of a head what comes of it: the order of its lines, the length
  and the coding of its body. `ChunkedBody` is the incremental chunk parser as a byte-fed state machine and as the
  source's class; `ChunkedGrammar` ties it to section 7.1 of RFC 9112, and `ChunkedExact` gives the texts it accepts,
  exactly. `OrderedConn` is the stream rewriter as a byte-at-a-time state
  machine beside an independent one-shot rewriter; `RequestConn` is `Write` itself, with a wrapped connection that
  may take less than it is given or fail.
* **Replay caches** (`internal/cache/*_replay_cache.go`). `AntigravityCache` holds the local operations on a class,
  `AntigravityRuns` arbitrary interleavings of them, `AntigravityFresh` how long what was stored is served and what
  gives way to it, `AntigravityHome` the compare-and-swap register with its retry loops, `AntigravitySize` the size
  bounds and the values as they stand in the register. `CodexReplay` and `CodexRuns` do the same for the cumulative
  Codex turns, `ClaudeReplay` and `ClaudeFresh` for the byte-accounted Claude sessions. `Eviction` is the choice of
  the oldest entries they share.
* **Configuration merge** (`internal/config/config_yaml.go`). `YamlTree`, `YamlMatch` and `YamlMerge` say what the
  merge of a generated document into an existing one computes, as functions on values; what the merge never writes on
  a node (comments, style, anchor) is its `notes`, and an alias is the name of an anchor. `YamlMergeLaws` and
  `YamlWeights` state what the merge keeps and what arrives; `YamlSettings` says by tag and text which settings arrive
  and which are not added, and `YamlIdentity` by their texts which elements of two sequences belong together. `YamlCopy` is the deep copy of a node graph on the heap,
  with sharing and cycles. `YamlShape`, `YamlRead`, `YamlReading`, `YamlReorder`, `YamlEdit` and `YamlInPlace` are the
  source's own form: node objects that are read, compared, reordered, pruned, copied and merged in place, each method
  proved against its function on values or on graphs. `YamlFootprint` tells from the two documents which nodes the
  merge may write, `YamlChanges` which of them it changes, and `YamlPicture` and `YamlAlias` which values, read
  through the pointers of their aliases, are the same before and after it.
* **Release flusher** (`internal/home/concurrency_release.go`): `ReleaseFlusher` and `ReleaseRuns`.
* **Client lifetime** (`internal/home/client.go`): `HomeClient`.
* **Bounded LRU** (`internal/cache/bounded_lru.go`): `BoundedLru`.
* **RESP** (`internal/api/redis_queue_protocol.go`, `internal/home/certificate.go`): `Resp` for the readers, the
  certificate client's encoder and the round trips, `RespExact` for the texts the readers accept, await or refuse,
  exactly, and `RespWriter` for the writers on a stream that may fail.
* **WAV** (`examples/realtime-openai-go/wav.go`): `Wav`, and `WavExact` for the bytes written and the reasons for which
  a file is turned down.

`ByteText`, `DecimalText` and `PaddedText` hold the library functions on bytes that these share, and what they accept.

Objects that the source updates in place are classes whose methods are proved against a function of the old state;
concurrency is modelled as a state machine whose events are the source's critical sections and remote commands, and
the theorems about runs quantify over all sequences of enabled events. Time is an integer passed in; random nonces
are values not used before; the desired header order and case folding, item normalization and JSON equality are
parameters.

Where code and expectation part, the code is modelled and the difference is a theorem:

* `ReleaseRuns.BackoffIsCappedDoubling`: the back-off is the capped doubling exactly when the maximum is below 2^62
  nanoseconds or there is nothing to back off to; beyond, the 64-bit doubling overflows (`Overflows`).
* `ClaudeReplay.ClaudeCache.DeleteIfUnchanged`: the entry bound survives a conditional deletion except with a
  not-found snapshot of an absent key on a full cache, which local reads never hand out.
* `Wav.WavRoundTrip`: the writer accepts more than the reader reads back.
* `YamlWeights.WeightArrives`: an explicit zero weight, which line 314 calls meaningful, does not always arrive. It
  arrives exactly when, below the first key that the existing document does not have, no value on the way to the
  weight is zero as a whole and the new value is not zero once it has been pruned. `LoneZeroWeightIsLost` and
  `ZeroWeightBesideDefaultIsLost` are two inputs on which it is lost, the second in a mapping that is not all zero.
* `YamlAlias.ReadsAsBeforeIff`: a value the generated document does not mention may read differently afterwards. The
  merge rewrites an anchored node in place, and an alias of it then reads as what was written: with `a: &x 1` and
  `b: *x` in the document and `a: 2` generated, `b` reads 2 (`AliasFollowsItsAnchor`). A value reads as before if its
  aliases lead to no node that the merge changes or moves, and not if they lead to one that it is sure to change;
  which nodes these are is told from the two documents before the merge (`YamlChanges.Changed`, `Moved`). What they
  lead to may have moved and read the same all the same: a sequence can be rewritten to what it was, with another
  element taken over (`YamlMergeLaws.MovedYetTheSame`).
* `CodexReplay.AppendTwice`: appending a turn whose id is known may change a list beyond the limits, exactly when
  trimming that list drops the turn; `AppendTwiceBeyondLimits` is such a list. This code writes no such list: in every
  run the register is within the limits (`CodexRuns.AppendersAreLinearizable`), so only contents that another program
  wrote get there.
* `YamlMergeLaws.DuplicateKeysLoseTheFirst` and `BlankKeysAreDropped`: why the merge needs unique, non-blank keys.
* `YamlMergeLaws.AliasKeysMisidentify`: structural equality follows an alias that is a key, identity takes its name,
  so structurally equal elements are recognised by the same thing only where no key is an alias
  (`YamlMatch.StructEqualSameId`).

## Model

| member | source | states |
|---|---|---|
| StableSort.ByRankIsTheStableSort | internal/httpwire/ordered_conn.go:130-147 | grouping lines by the first desired name they match is the stable sort: in rank order, each rank's items in their old order, and no other list has both |
| StableSort.ByRankPermutes | internal/httpwire/ordered_conn.go:130-147 | grouping loses and duplicates nothing |
| StableSort.ByRankIsFixed | internal/httpwire/ordered_conn.go:130-147 | a list already in rank order stays as it is |
| StableSort.FilterByRank | internal/httpwire/ordered_conn.go:130-147 | items of one rank come out in the order they went in |
| HeaderOrder.CollectNamed | internal/httpwire/ordered_conn.go:135-141 | one pass appends exactly the unused lines of its rank, in order, and marks them |
| HeaderOrder.CollectRest | internal/httpwire/ordered_conn.go:143-147 | the last pass appends the lines no desired name matched |
| HeaderOrder.Arrange | internal/httpwire/ordered_conn.go:130-147 | all passes together give the stable sort of the header lines |
| HeaderOrder.OrderRequestHeader | internal/httpwire/ordered_conn.go:115-156 | the method returns the specified head, Content-Length and chunked decision for every buffered head |
| HeaderLaws.SplitOfJoin | internal/httpwire/ordered_conn.go:116-130 | splitting CRLF-joined lines free of CRLF gives the lines back |
| HeaderLaws.NoEarlyBlankLine | internal/httpwire/ordered_conn.go:149-155 | non-empty CRLF-free lines, each followed by CRLF, hold no blank line before the very end |
| HeaderLaws.EmittedIsHead | internal/httpwire/ordered_conn.go:149-155 | the text written for such lines is a complete head with its first blank line at the end |
| HeaderLaws.LinesAreHeadLike | internal/httpwire/ordered_conn.go:115-119 | the lines of a buffered head are non-empty and CRLF-free |
| HeaderLaws.SameNameSameRank | internal/httpwire/ordered_conn.go:158-161 | two lines with one field name match the same desired names |
| HeaderLaws.SortedKeepsNamed | internal/httpwire/ordered_conn.go:130-147 | same-named lines keep their order (section 5.3 of RFC 9110) |
| HeaderLaws.ContentLengthIs | internal/httpwire/ordered_conn.go:163-177 | the first Content-Length line decides: its number when positive, and 0 otherwise |
| HeaderLaws.ContentLengthByName | internal/httpwire/ordered_conn.go:163-177 | Content-Length depends on the Content-Length lines alone, in order |
| HeaderLaws.UsesChunkedOfPermutation | internal/httpwire/ordered_conn.go:179-192 | the chunked decision does not depend on the order of the lines |
| HeaderLaws.OrderedLines | internal/httpwire/ordered_conn.go:115-156 | the request line stays first and the header lines are the stable sort of the old ones |
| HeaderLaws.ReorderingLaws | internal/httpwire/ordered_conn.go:115-192 | reordering permutes the lines, keeps total length, request line, same-named order and framing (section 6.3 of RFC 9112), keeps the blank line at the very end, and done twice equals once |
| HeaderText.EveryHead | internal/httpwire/ordered_conn.go:115-119 | every buffered head is written as a request line and header lines, each a name with its values between commas and white space, or nameless |
| HeaderText.ChunkedOfText | internal/httpwire/ordered_conn.go:179-192 | the body is taken as chunked if and only if some line whose name folds to that of Transfer-Encoding has a value that folds to chunked |
| HeaderText.LengthOfText | internal/httpwire/ordered_conn.go:163-177 | the length is what the first line named Content-Length says, its one value a positive number of 64 bits as it may be written, and 0 for anything else or no such line |
| HeaderText.BodyOfText | internal/httpwire/ordered_conn.go:163-177 | and a head that says a length gives exactly this length |
| HeaderText.OrderOfText | internal/httpwire/ordered_conn.go:120-155 | the header lines of a head with method and target come out in the order of the names wanted for this method and this target, each name's lines as they stood |
| HeaderText.OddRequestStays | internal/httpwire/ordered_conn.go:120-123 | a head whose request line has fewer than two spaces goes out as it came |
| DecimalText.ParsesExactly | internal/httpwire/ordered_conn.go:170 | a text is read as a number if and only if it is a sign or none, zeros, and the digits of its size, within 64 bits |
| ChunkedBody.ChunkedTracker.Clone | internal/httpwire/ordered_conn.go:213-218 | a separate tracker in the same state |
| ChunkedBody.ChunkedTracker.Consume | internal/httpwire/ordered_conn.go:220-280 | count, completion, malformedness and new state are those of feeding the bytes one at a time |
| ChunkedBody.FeedData | internal/httpwire/ordered_conn.go:247-254 | chunk data may be taken in blocks of any size |
| ChunkedBody.FeedSplit | internal/httpwire/ordered_conn.go:220-280 | feeding a then b is feeding a + b while a leaves the body open; nothing after the end or an error is taken |
| ChunkedBody.FeedPrefix | internal/httpwire/ordered_conn.go:59-79 | after a successful preview the real pass over any written part takes it all, without error, and completes exactly when the preview did and all of it was written |
| ChunkedGrammar.SizeTextParses | internal/httpwire/ordered_conn.go:229-239 | every chunk-size line of the grammar, with or without extension, gives its size |
| ChunkedGrammar.TrailersEndOnce | internal/httpwire/ordered_conn.go:265-274 | a trailer section ends exactly at its closing blank line |
| ChunkedGrammar.ChunkedBodyEnds | internal/httpwire/ordered_conn.go:220-280 | on a chunked body of section 7.1 of RFC 9112 followed by any bytes the parser completes and takes exactly the body |
| ChunkedExact.SizeLineSays | internal/httpwire/ordered_conn.go:229-242 | a size line says a number if and only if it is a signed hexadecimal number of 64 bits between white space, with or without an extension after its first semicolon |
| ChunkedExact.AcceptsExactly | internal/httpwire/ordered_conn.go:220-280 | the parser completes with the first n bytes of a block if and only if these are chunks with their sizes, each with its line ends, a last chunk of size zero, and trailers up to their first blank line, all within the bounds |
| OrderedConn.PushSplit | internal/httpwire/ordered_conn.go:40-113 | pushing a then b is pushing a + b |
| OrderedConn.PushBody | internal/httpwire/ordered_conn.go:48-58 | a counted body goes through in one block as it does byte by byte |
| OrderedConn.PushChunked | internal/httpwire/ordered_conn.go:59-79 | a chunked body goes through in one block as it does byte by byte |
| OrderedConn.PushHeadClosed | internal/httpwire/ordered_conn.go:81-110 | the bytes up to the first blank line go out as the reordered head |
| OrderedConn.OneShotIsPush | internal/httpwire/ordered_conn.go:40-113 | on every stream the byte-at-a-time rewriter produces what the one-shot rewriter does, faults included |
| OrderedConn.CutsDoNotMatter | internal/httpwire/ordered_conn.go:40-113 | however a stream is cut into blocks, wire bytes and final state are those of the one-shot rewriter |
| OrderedConn.PushKeeps | internal/httpwire/ordered_conn.go:40-113 | bytes out plus bytes buffered are the bytes in, and the state stays valid |
| OrderedConn.OneShotOfMessages | internal/httpwire/ordered_conn.go:40-113 | on any list of messages whose bodies are framed as the text of their heads says, each head goes out reordered and each body untouched, whatever follows |
| RequestConn.InnerConn.Write | internal/httpwire/ordered_conn.go:282-296 | the wrapped connection takes a front part of the data, all of it unless its script says otherwise |
| RequestConn.WriteAll | internal/httpwire/ordered_conn.go:282-296 | what was counted is what reached the wire; without failure that is everything |
| RequestConn.OrderedRequestConn.WriteBody | internal/httpwire/ordered_conn.go:48-58 | the state moves on by what was written, even when the write fails |
| RequestConn.OrderedRequestConn.WriteChunked | internal/httpwire/ordered_conn.go:59-79 | preview on a clone, write, then the real pass over what was written, which never errs |
| RequestConn.OrderedRequestConn.WriteHead | internal/httpwire/ordered_conn.go:81-110 | buffers, or cuts at the first blank line and sends the reordered head |
| RequestConn.OrderedRequestConn.Advance | internal/httpwire/ordered_conn.go:43-112 | one turn of the loop takes at least one byte or ends the call |
| RequestConn.OrderedRequestConn.Write | internal/httpwire/ordered_conn.go:40-113 | terminates; without error the block went through as pushed byte by byte; each error names what reached the wire, what state is left and, on a connection that never fails, when it occurs |
| Eviction.OldestKeys | internal/cache/antigravity_reasoning_replay_cache.go:623-645 | the chosen keys are as many as asked for, or all, and none is younger than a key that stays |
| Eviction.OldestKey | internal/cache/codex_reasoning_replay_cache.go:462-483 | the chosen key is present and no key is older |
| AntigravityCache.ReplayCache.IsPrefix | internal/cache/antigravity_reasoning_replay_cache.go:456-466 | true exactly when the first list is a prefix of the second |
| AntigravityCache.ReplayCache.RemoveAll | internal/cache/antigravity_reasoning_replay_cache.go:641-644 | the loop deletes exactly the given entries and raises the epoch once for each |
| AntigravityCache.ReplayCache.EvictOldest | internal/cache/antigravity_reasoning_replay_cache.go:623-645 | exactly the oldest entries go, and the epoch counts each |
| AntigravityCache.ReplayCache.TrimIfFull | internal/cache/antigravity_reasoning_replay_cache.go:138-140 | within the bound nothing changes; beyond, the oldest batch goes |
| AntigravityCache.ReplayCache.Store | internal/cache/antigravity_reasoning_replay_cache.go:131-137 | an entry is put under the next revision |
| AntigravityCache.ReplayCache.ReserveAbsent | internal/cache/antigravity_reasoning_replay_cache.go:256-275 | room is made first, then the miss is fenced with a tombstone whose snapshot is returned |
| AntigravityCache.ReplayCache.Get | internal/cache/antigravity_reasoning_replay_cache.go:230-251 | a live entry is returned and refreshed, a tombstone returned as a miss, an expired one dropped and fenced |
| AntigravityCache.ReplayCache.Set | internal/cache/antigravity_reasoning_replay_cache.go:100-142 | an unconditional store starts a new branch |
| AntigravityCache.ReplayCache.Replace | internal/cache/antigravity_reasoning_replay_cache.go:333-353 | publishes exactly when the rule allows it, with the rule's branch, and changes nothing otherwise |
| AntigravityCache.ReplayCache.DeleteIfUnchanged | internal/cache/antigravity_reasoning_replay_cache.go:357-385 | deletes exactly when nothing changed since the snapshot |
| AntigravityCache.ReplayCache.Delete | internal/cache/antigravity_reasoning_replay_cache.go:396-418 | leaves a tombstone on a new branch |
| AntigravityCache.ReplayCache.Clear | internal/cache/antigravity_reasoning_replay_cache.go:478-483 | no entries, the epoch moved once, revisions go on |
| AntigravityCache.ReplayCache.Purge | internal/cache/antigravity_reasoning_replay_cache.go:647-656 | exactly the expired entries go, and the epoch counts each |
| AntigravityRuns.StoredKeeps | internal/cache/antigravity_reasoning_replay_cache.go:333-353 | storing on a new branch, or on the current branch with an extension of the current list, keeps the prefix chains |
| AntigravityRuns.NextKeeps | internal/cache/antigravity_reasoning_replay_cache.go:230-418 | every event keeps the invariant |
| AntigravityRuns.PublishIsSafe | internal/cache/antigravity_reasoning_replay_cache.go:333-353 | a publication the rule allows meets the entry its snapshot read, or a live extension of it on the same branch that it extends |
| AntigravityRuns.BranchesGrow | internal/cache/antigravity_reasoning_replay_cache.go:230-384 | in every run the lists stored under one branch id belong to one key and form a growing prefix chain |
| AntigravityRuns.NoLostUpdate | internal/cache/antigravity_reasoning_replay_cache.go:333-353 | in every run a publication that goes through replaces the list its request saw, or extends the live list on its branch: no published item is lost |
| AntigravityRuns.StaleNeverPublishes | internal/cache/antigravity_reasoning_replay_cache.go:333-384 | in every run, once a snapshot's entry has been deleted, evicted, purged or moved to another branch, no later publication from it goes through |
| AntigravityRuns.DeletionLeavesBehind | internal/cache/antigravity_reasoning_replay_cache.go:357-418 | a deletion that goes through leaves every earlier snapshot of its key behind |
| AntigravityRuns.OthersDoNotBlock | internal/cache/antigravity_reasoning_replay_cache.go:333-385 | events on other keys never make an allowed publication, or an allowed conditional deletion, refused |
| AntigravityRuns.UndisturbedGoesThrough | internal/cache/antigravity_reasoning_replay_cache.go:333-385 | in every run, a request alone with its key between its Get and its Replace publishes exactly its items, and one that deletes instead deletes |
| AntigravityRuns.ExtensionGoesThrough | internal/cache/antigravity_reasoning_replay_cache.go:333-353 | a chain that extends the live list on the branch of its snapshot is published |
| AntigravityRuns.GetIsARun | internal/cache/antigravity_reasoning_replay_cache.go:230-275 | what the `Get` method leaves is what some run of events leaves: a refresh, or the losses of the expired and the evicted entries and then the miss |
| AntigravityRuns.ReplaceIsARun | internal/cache/antigravity_reasoning_replay_cache.go:333-353 | the same for `Replace`, whether it publishes or not |
| AntigravityRuns.StoreIsARun | internal/cache/antigravity_reasoning_replay_cache.go:100-142 | the same for the unconditional store and the unconditional delete |
| AntigravityRuns.DeleteIfIsARun | internal/cache/antigravity_reasoning_replay_cache.go:357-385 | the same for the conditional delete, whether it deletes or not |
| AntigravityRuns.TrimmingLoses | internal/cache/antigravity_reasoning_replay_cache.go:138-140 | the trimming at the end of a critical section is one of the losses the runs allow at any time |
| AntigravityFresh.Perform | internal/cache/antigravity_reasoning_replay_cache.go:230-418 | each method is one of the calls that the sequences below are made of |
| AntigravityFresh.FreshIsServed | internal/cache/antigravity_reasoning_replay_cache.go:230-251 | in every sequence of calls, what a Set or Replace stored is returned to every Get no later than the time to live after it was stored or last read, as long as nothing deletes, overwrites or evicts it, and to none after that; each Get starts the time anew |
| AntigravityFresh.PurgeKeepsTheFresh | internal/cache/antigravity_reasoning_replay_cache.go:647-656 | a purge leaves exactly the entries stored or read at most the time to live ago |
| AntigravityFresh.EvictsTheOldest | internal/cache/antigravity_reasoning_replay_cache.go:623-645 | every call keeps the bound; it costs other keys nothing while there is room, and else at most one batch, none of it younger than what stays |
| AntigravityHome.SwapFollowsTheLocalRule | internal/cache/antigravity_reasoning_replay_cache.go:291-331 | a swap that goes through is a step the local rule allows, with the branch the local rule gives, although the branch was computed before the retries |
| AntigravityHome.NextKeeps | internal/cache/antigravity_reasoning_replay_cache.go:176-331 | every remote command of every client keeps the invariant |
| AntigravityHome.HomeRefinesLocalRule | internal/cache/antigravity_reasoning_replay_cache.go:291-331 | over all interleavings of clients on the register, failed reads among them, written values form prefix chains per branch and every successful Replace is a local step that loses no item |
| AntigravityHome.StaleNeverPublishes | internal/cache/antigravity_reasoning_replay_cache.go:291-331 | in every run, once the register is empty or on another branch than a snapshot, no later swap of a Replace with that snapshot goes through, however many attempts it makes, and no conditional delete |
| AntigravityHome.FailedReadsPublishIntoNothing | internal/cache/antigravity_reasoning_replay_cache.go:185-206 | in every run, a Replace with the snapshot of a failed read swaps against an empty register only, onto a branch that no value was ever written on |
| AntigravityHome.TriesAgain | internal/cache/antigravity_reasoning_replay_cache.go:291-331 | a Replace whose swap met a shorter extension on the branch of its snapshot reads it and swaps again, and undisturbed then goes through |
| AntigravityHome.OtherwiseGivesUp | internal/cache/antigravity_reasoning_replay_cache.go:311-327 | whatever else it reads after a failed swap, it gives up |
| AntigravityHome.FourSwapsAtMost | internal/cache/antigravity_reasoning_replay_cache.go:291-331 | in every run it makes four swaps at the most |
| AntigravityHome.DeletesExactly | internal/cache/antigravity_reasoning_replay_cache.go:357-384 | a conditional delete takes effect exactly when the register holds what its snapshot read |
| AntigravitySize.NormalizeReplayItems | internal/cache/antigravity_reasoning_replay_cache.go:500-517 | the kept items within both bounds, or nothing as soon as one is crossed |
| AntigravitySize.NormalizesWithin | internal/cache/antigravity_reasoning_replay_cache.go:500-517 | a list is stored if and only if it has at most 4096 items, some have a stored form, and these forms have at most 16 MiB of text; and then as all of these forms |
| AntigravitySize.KeptOfOne | internal/cache/antigravity_reasoning_replay_cache.go:505-514 | what is kept of one item is its stored form, or nothing |
| AntigravitySize.KeptOfSum | internal/cache/antigravity_reasoning_replay_cache.go:500-517 | and what is kept of a list is what is kept of its parts, in order |
| AntigravitySize.KeptTwice | internal/cache/antigravity_reasoning_replay_cache.go:207-216 | normalizing what is stored gives it back unchanged |
| AntigravitySize.QuotedLengthBound | internal/cache/antigravity_reasoning_replay_cache.go:428-440 | base64 and punctuation cost at most 4/3 of the bytes plus seven per item (section 4 of RFC 4648) |
| AntigravitySize.SerializedOneMore | internal/cache/antigravity_reasoning_replay_cache.go:428-440 | a list in JSON has two brackets, and each item adds its base64 text in quotes, with a comma unless it is the first |
| AntigravitySize.HomeValueReadsBack | internal/cache/antigravity_reasoning_replay_cache.go:207-225 | every value written decodes to the generation, branch and items it was made of, is below the read cap, and a Get of it passes all of the reader's checks and returns just these items |
| AntigravitySize.TombstoneReadsBack | internal/cache/antigravity_reasoning_replay_cache.go:468-476 | a tombstone decodes to what it was made of, and a Get of it finds its branch and no items |
| AntigravitySize.ReadsExactly | internal/cache/antigravity_reasoning_replay_cache.go:195-225 | a Get makes items of a raw value if and only if it is a list of at most 24 MiB whose marker, if it has one, does not say deleted, with 1 to 4096 items after it that all have a stored form, of at most 16 MiB; and then these forms |
| AntigravitySize.OthersReadAsNothing | internal/cache/antigravity_reasoning_replay_cache.go:195-206 | anything else than a list, or a longer one, reads as no value |
| CodexReplay.Measure | internal/cache/codex_reasoning_replay_cache.go:213-222 | the loop finds where the turns start and how many bytes there are |
| CodexReplay.TrimItems | internal/cache/codex_reasoning_replay_cache.go:212-230 | the loop computes the recursive trim |
| CodexReplay.TrimIsLongestFit | internal/cache/codex_reasoning_replay_cache.go:212-230 | trimming gives the longest part that starts at a turn boundary, runs to the end and meets both limits, or nothing |
| CodexReplay.LongestFitIsUnique | internal/cache/codex_reasoning_replay_cache.go:212-230 | there is only one such part |
| CodexReplay.TrimmedIsWithin | internal/cache/codex_reasoning_replay_cache.go:212-230 | a list whose text and number of later turns are within the limits is left alone; any other is cut no further than to the first marker from which on they are, or to nothing |
| CodexReplay.TrimAhead | internal/cache/codex_reasoning_replay_cache.go:190-230 | trimming the older part before a marked turn is added makes no difference in the end |
| CodexReplay.AppendTurn | internal/cache/codex_reasoning_replay_cache.go:190-210 | the method appends as specified: known turn ids change nothing, unmarked old lists are dropped |
| CodexReplay.AppendedBy | internal/cache/codex_reasoning_replay_cache.go:190-210 | a list that does not begin with a marker does not count, a turn whose id is there is not added, any other turn is added at the end, and the result is trimmed |
| CodexReplay.AppendKeepsTheTurn | internal/cache/codex_reasoning_replay_cache.go:190-230 | a marked turn with a new id stands whole at the end of the result |
| CodexReplay.AppendTwice | internal/cache/codex_reasoning_replay_cache.go:190-210 | once a marked turn has been appended to any list, appending any turn with its id changes nothing: always when the id was new, and exactly when the trimming keeps the id if the list had it |
| CodexReplay.AppendTwiceWithinLimits | internal/cache/codex_reasoning_replay_cache.go:190-210 | so on every list within the limits, whatever it holds, appending the same turn id again changes nothing |
| CodexReplay.AppendTwiceBeyondLimits | internal/cache/codex_reasoning_replay_cache.go:190-230 | on a list with one turn more than the limit, whose oldest turn is appended again, the first append trims that turn away and the second brings it back |
| CodexRuns.AppendersAreLinearizable | internal/cache/codex_reasoning_replay_cache.go:131-171 | in every run the register is the pure append folded over the successful appenders in swap order, each counted once; failed or exhausted ones left no effect |
| CodexRuns.StoredTextIsBounded | internal/cache/codex_reasoning_replay_cache.go:131-230 | in every run the stored texts together take no more bytes than allowed and hold no more turns |
| CodexRuns.GivesUpAfterThirtyTwo | internal/cache/codex_reasoning_replay_cache.go:131-171 | in every run an appender makes at most 32 swaps, and fails only after the 32nd or when it was cancelled or the register failed |
| CodexRuns.UndisturbedSucceeds | internal/cache/codex_reasoning_replay_cache.go:131-171 | an appender that nobody disturbs between read and swap succeeds at once |
| CodexRuns.AppendAllIsTrimOfAll | internal/cache/codex_reasoning_replay_cache.go:190-230 | appending distinct marked turns one by one is trimming their concatenation once |
| CodexRuns.TrimFits | internal/cache/codex_reasoning_replay_cache.go:212-230 | a trimmed list meets both limits |
| CodexRuns.NextKeeps | internal/cache/codex_reasoning_replay_cache.go:131-171 | every read, swap and outside write keeps the register equal to the fold of the log |
| CodexRuns.CodexCache.AppendLocal | internal/cache/codex_reasoning_replay_cache.go:173-187 | the local append starts from the live list, stores the pure append and keeps the entry bound by dropping the oldest |
| ReleaseFlusher.ReleaseFlusher.MarkDirty | internal/home/concurrency_release.go:77-100 | refuses blank groups and numbers that are not positive; otherwise raises the latest number and hands out a ticket, already closed exactly when its number is acknowledged |
| ReleaseFlusher.ReleaseFlusher.Pending | internal/home/concurrency_release.go:192-200 | the snapshot holds exactly the groups with unacknowledged numbers, at their latest |
| ReleaseFlusher.ReleaseFlusher.CloseAll | internal/home/concurrency_release.go:222-224 | closes each listed channel, none of which was closed |
| ReleaseFlusher.ReleaseFlusher.CloseCovered | internal/home/concurrency_release.go:219-228 | closes exactly the waiters up to the acknowledged number, each once, and keeps the others |
| ReleaseFlusher.ReleaseFlusher.Acknowledge | internal/home/concurrency_release.go:216-230 | raises the acknowledged number of one group and nothing else |
| ReleaseFlusher.ReleaseFlusher.Flush | internal/home/concurrency_release.go:187-233 | alone, a flush acknowledges exactly the pending groups whose send succeeds, and reports whether one failed; without a sender it changes nothing and reports no failure |
| ReleaseFlusher.ReleaseFlusher.Idle | internal/home/concurrency_release.go:258-267 | idle exactly when every group is acknowledged up to its latest number |
| ReleaseFlusher.MarkedKeeps | internal/home/concurrency_release.go:77-100 | marking keeps acknowledged at or below latest, waiters strictly between them, and every ticket closed or waiting once |
| ReleaseFlusher.AcknowledgedKeeps | internal/home/concurrency_release.go:216-230 | so does acknowledging, with any sequence sent before |
| ReleaseFlusher.IdleClosesAll | internal/home/concurrency_release.go:258-267 | an idle flusher keeps nobody waiting |
| ReleaseFlusher.AcknowledgedCloses | internal/home/concurrency_release.go:216-230 | an acknowledged number closes the tickets of its group up to it and no other |
| ReleaseFlusher.OpenIsPending | internal/home/concurrency_release.go:192-200 | the snapshot names the group of every open ticket with a number that answers it |
| ReleaseRuns.NextNeverFalls | internal/home/concurrency_release.go:77-233 | no event lowers a latest or acknowledged number, or reopens a ticket |
| ReleaseRuns.TicketsMeanDelivery | internal/home/concurrency_release.go:77-267 | in every run a closed ticket means a send of its group with at least its number succeeded, an idle flusher has no open ticket, and an open one waits between acknowledged and latest |
| ReleaseRuns.NoTicketIsClosedTwice | internal/home/concurrency_release.go:77-230 | in every run what an event closes was open, and an acknowledgement meets each ticket once: no channel is closed twice |
| ReleaseRuns.MarkGetsATicket | internal/home/concurrency_release.go:77-100 | in every run each mark gets a new ticket that carries its group and number for good |
| ReleaseRuns.FlushCarriesTheOpen | internal/home/concurrency_release.go:187-200 | in every run a flush that starts while a ticket is open takes a frame along that answers it |
| ReleaseRuns.AcknowledgedForGood | internal/home/concurrency_release.go:216-230 | in every run an acknowledged number closes all earlier tickets of its group up to it, and they stay closed |
| ReleaseRuns.OnlyMarkedIsSent | internal/home/concurrency_release.go:187-233 | in every run only numbers that somebody marked are sent or acknowledged |
| ReleaseRuns.IdleMeansAllAnswered | internal/home/concurrency_release.go:258-267 | in every run the flusher is idle if and only if every ticket is closed |
| ReleaseRuns.Settle | internal/home/concurrency_release.go:166-185 | settled timings are positive and the maximum is at least the interval |
| ReleaseRuns.NextDelay | internal/home/concurrency_release.go:136-149 | a success resets the delay to the interval; after a failure, for maxima below 2^62, it is at least doubled or at the maximum |
| ReleaseRuns.BackoffIsCappedDoubling | internal/home/concurrency_release.go:136-149 | after n straight failures the delay is min(maxBackoff, flushInterval * 2^n) for all n, if and only if the maximum is below 2^62 or equals the interval |
| ReleaseRuns.Overflows | internal/home/concurrency_release.go:136-149 | otherwise the delay is not the capped doubling after 62 or after 63 failures |
| BoundedLru.BoundedLru.constructor | internal/cache/bounded_lru.go:24-34 | an empty cache of capacity at least one |
| BoundedLru.BoundedLru.GetOrAdd | internal/cache/bounded_lru.go:38-66 | the recency list moves as specified, the value is the cached or created one, and only the oldest other key is evicted, never the one just added |
| BoundedLru.BoundedLru.Get | internal/cache/bounded_lru.go:68-77 | a hit returns the value and moves the key to the front; a miss changes nothing |
| BoundedLru.BoundedLru.Len | internal/cache/bounded_lru.go:79-83 | the index has as many keys as the list |
| BoundedLru.RecentPosition | internal/cache/bounded_lru.go:38-77 | in recency order, the keys before a key are exactly those touched since |
| BoundedLru.HoldsTheMostRecent | internal/cache/bounded_lru.go:38-77 | after any history the cache holds the first `capacity` of the most recently touched distinct keys |
| BoundedLru.CachedIffRecent | internal/cache/bounded_lru.go:38-77 | a key is cached exactly when it was touched and fewer than `capacity` other keys were touched since |
| BoundedLru.LargerContainsSmaller | internal/cache/bounded_lru.go:38-66 | on GetOrAdd histories a larger cache holds all a smaller one does, in the same order |
| ClaudeReplay.AppendContent | internal/cache/claude_thinking_replay_cache.go:367-382 | the loops compute the specified append |
| ClaudeReplay.DropToFitIsLongest | internal/cache/claude_thinking_replay_cache.go:375-380 | dropping from the front keeps the longest end within both limits |
| ClaudeReplay.AppendedLaws | internal/cache/claude_thinking_replay_cache.go:367-382 | the session stays within its limits without JSON-equal turns; a known turn changes nothing, a new one stands last |
| ClaudeReplay.AppendedByText | internal/cache/claude_thinking_replay_cache.go:367-382 | a turn the session has, up to the JSON text it is written in, changes nothing; any other is added and as few of the oldest go as it takes to be within the turns and the bytes of a session |
| ClaudeReplay.SumPut | internal/cache/claude_thinking_replay_cache.go:354-365 | setting one entry moves the byte sum by the difference |
| ClaudeReplay.SumWithout | internal/cache/claude_thinking_replay_cache.go:448-482 | removing one entry lowers the sum by its bytes |
| ClaudeReplay.SumByText | internal/cache/claude_thinking_replay_cache.go:354-482 | the counter is the length of all texts of all sessions |
| ClaudeReplay.ClaudeCache.Put | internal/cache/claude_thinking_replay_cache.go:354-365 | sets one entry and keeps the counter equal to the sum |
| ClaudeReplay.ClaudeCache.EvictOldest | internal/cache/claude_thinking_replay_cache.go:448-471 | exactly the oldest entries go, and the counter stays right |
| ClaudeReplay.ClaudeCache.Enforce | internal/cache/claude_thinking_replay_cache.go:438-446 | the loop terminates within both limits, dropping nothing when they held, only entries no younger than what stays, and no batch more than it takes |
| ClaudeReplay.ClaudeCache.Store | internal/cache/claude_thinking_replay_cache.go:354-365 | the new session is put, then the limits enforced |
| ClaudeReplay.ClaudeCache.Get | internal/cache/claude_thinking_replay_cache.go:143-161 | a live entry is returned and refreshed, anything else fenced with a tombstone, which is there at the end |
| ClaudeReplay.ClaudeCache.Reserve | internal/cache/claude_thinking_replay_cache.go:347-352 | a tombstone is put and the limits enforced; where the eviction takes the key itself, there is room for it |
| ClaudeReplay.ClaudeCache.Replace | internal/cache/claude_thinking_replay_cache.go:197-213 | publishes exactly valid content on a current snapshot, storing the append of that one turn |
| ClaudeReplay.ClaudeCache.DeleteIfUnchanged | internal/cache/claude_thinking_replay_cache.go:240-249 | deletes exactly on a current snapshot, keeps the counter, and keeps the entry bound if and only if it was not a not-found snapshot of an absent key on a full cache |
| ClaudeReplay.ClaudeCache.Delete | internal/cache/claude_thinking_replay_cache.go:268-274 | the entry and its bytes go |
| ClaudeReplay.ClaudeCache.Clear | internal/cache/claude_thinking_replay_cache.go:278-283 | nothing is left and the counter is zero |
| ClaudeReplay.ClaudeCache.Purge | internal/cache/claude_thinking_replay_cache.go:473-482 | exactly the expired entries go, and their bytes |
| ClaudeFresh.Perform | internal/cache/claude_thinking_replay_cache.go:143-283 | each method is one of the calls that the sequences below are made of |
| ClaudeFresh.FreshIsServed | internal/cache/claude_thinking_replay_cache.go:143-161 | in every sequence of calls, a session that a Store or Replace left is returned to every Get no later than the time to live after it was left or last read, as long as nothing deletes, overwrites or evicts it, and to none after that; each Get starts the time anew |
| ClaudeFresh.CurrentIsPublished | internal/cache/claude_thinking_replay_cache.go:197-213 | a Replace with the snapshot of the last Get of its key publishes every valid content if nothing happened to the key since |
| ClaudeFresh.EvictsTheOldest | internal/cache/claude_thinking_replay_cache.go:438-471 | whatever a call evicts is no younger than what stays |
| ClaudeFresh.EvictsNoMoreThanNeeded | internal/cache/claude_thinking_replay_cache.go:438-446 | what is stored evicts nothing while both limits leave room, and else no batch more than it takes |
| HomeClient.Client.DetachClientsLocked | internal/home/client.go:372-384 | both clients and all connections are taken out and returned |
| HomeClient.Client.Close | internal/home/client.go:291-355 | afterwards the client is fenced and empty, and what it held is handed over |
| HomeClient.Client.EnsureClients | internal/home/client.go:475-513 | installs what is missing, or fails on a fenced or unconfigured client |
| HomeClient.Client.Register | internal/home/client.go:540-563 | a dialed connection is registered, or refused exactly when the client is fenced |
| HomeClient.Client.ConnClose | internal/home/client.go:565-577 | a connection takes itself off the list |
| HomeClient.Client.ReleaseClient | internal/home/client.go:1409-1444 | the release client is created only on an unfenced client in a stable state |
| HomeClient.NextKeeps | internal/home/client.go:291-577 | every step of every goroutine keeps all clients and connections accounted for |
| HomeClient.NextForgetsNothing | internal/home/client.go:291-577 | what was handed over, removed or refused stays so, and after the end nothing is created |
| HomeClient.NothingAfterTheEnd | internal/home/client.go:291-355 | once the critical section of a Close or Abort has run, no later step of any interleaving installs a client or registers a connection, and every earlier connection was handed over or had removed itself |
| HomeClient.DialedIsTracked | internal/home/client.go:540-577 | in every interleaving a connection whose dialer finds no fence is on the list, handed over, or closed by its user from then on, and after the end one of the last two; one whose dialer finds the fence is refused for good |
| HomeClient.InstalledIsHandedOver | internal/home/client.go:475-513 | in every interleaving a step that is to install clients and may leaves each there, one that was there before the same, and what it leaves is handed over by the end |
| Resp.AtoiOfItoa | internal/api/redis_queue_protocol.go:543-557 | every 64-bit length or integer written in decimal reads back |
| Resp.Reader.Line | internal/api/redis_queue_protocol.go:477-485 | reads up to the next line feed and drops one carriage return |
| Resp.Reader.BulkString | internal/api/redis_queue_protocol.go:455-475 | result and remaining stream are those of the specification, errors included, for lengths the program can allocate |
| Resp.Reader.String | internal/api/redis_queue_protocol.go:440-453 | the same for the three string forms |
| Resp.Reader.Array | internal/api/redis_queue_protocol.go:413-438 | the same for arrays, for counts the program can allocate |
| Resp.Reader.Strings | internal/api/redis_queue_protocol.go:429-437 | the loop reads exactly `count` strings or stops at the first error |
| Resp.EncodeRESPArray | internal/home/certificate.go:335-348 | the encoder writes the specified array |
| Resp.ArrayRoundTrip | internal/api/redis_queue_protocol.go:413-485 | reading what the encoder wrote gives back the arguments, whatever bytes they hold, and leaves exactly the rest (RESP2, "Arrays" and "Bulk strings") |
| Resp.CommandsRoundTrip | internal/api/redis_queue_protocol.go:413-438 | a concatenation of commands parses to the same list of commands |
| Resp.SubscribeParses | internal/api/redis_queue_protocol.go:559-583 | a subscribe or unsubscribe frame parses to exactly its three fields |
| Resp.MessageParses | internal/api/redis_queue_protocol.go:585-596 | a message frame parses to exactly its three fields; a nil payload reads as empty |
| RespWriter.Writer.WriteString | internal/api/redis_queue_protocol.go:487-501 | a write puts the whole text on the stream, or fails with a front part of it there |
| RespWriter.Writer.BulkString | internal/api/redis_queue_protocol.go:511-526 | the three writes give the bulk string, nil for no payload; a failure leaves a front part of it |
| RespWriter.Writer.ArrayOfBulkStrings | internal/api/redis_queue_protocol.go:528-541 | the loop gives header and items in order; a failure leaves a front part of them |
| RespWriter.Writer.PubSubSubscribe | internal/api/redis_queue_protocol.go:559-583 | header, kind, channel and count in order; a failure leaves a front part of the frame |
| RespWriter.Writer.PubSubMessage | internal/api/redis_queue_protocol.go:585-596 | header, kind, channel and payload in order; a failure leaves a front part of the frame |
| RespWriter.Writer.PubSubPong | internal/api/redis_queue_protocol.go:598-606 | an array of the word and the payload; a failure leaves a front part of it |
| RespWriter.ArrayOfBulksParses | internal/api/redis_queue_protocol.go:528-541 | what the array writer wrote parses to exactly its items, nil items as empty strings, and leaves the rest |
| RespWriter.WordsParse | internal/api/redis_queue_protocol.go:585-606 | the reply to a ping parses to the word pong and the payload, a message frame to the word message, the channel and the payload |
| Resp.BulkReplyRoundTrip | internal/home/certificate.go:350-382 | the certificate client reads back the payload of a bulk reply |
| Resp.ArrayExtends | internal/api/redis_queue_protocol.go:413-485 | a decided read does not depend on what follows |
| Resp.TruncationIsEof | internal/api/redis_queue_protocol.go:413-485 | every cut-off front of a command reads as an early end, never as a shorter command or a protocol error |
| RespExact.StringExactly | internal/api/redis_queue_protocol.go:440-485 | a string is read, with this value and this rest, if and only if one of the three forms with this value stands before this rest: a bulk string with its length in decimal and its line end, a negative length, or a simple line |
| RespExact.StringUnfinished | internal/api/redis_queue_protocol.go:440-485 | more is awaited if and only if a proper front of such a form is all there is; anything else is a protocol error |
| RespExact.ArrayExactly | internal/api/redis_queue_protocol.go:413-438 | a command is read if and only if a count in decimal and that many strings stand before the rest |
| RespExact.ArrayUnfinished | internal/api/redis_queue_protocol.go:413-438 | more is awaited if and only if a proper front of a command is all there is; anything else is a protocol error |
| RespExact.ReplyExactly | internal/home/certificate.go:350-382 | the certificate client reads a payload if and only if its length, the payload and two more bytes stand before the rest |
| RespExact.ReplyUnfinished | internal/home/certificate.go:350-382 | and awaits more if and only if a proper front of that is all there is |
| Wav.ReadPCM16WAV | examples/realtime-openai-go/wav.go:29-89 | the loop returns what the specification reads, each rejection with its reason |
| Wav.WritePCM16WAV | examples/realtime-openai-go/wav.go:92-142 | the writer refuses empty, oversized or odd input and otherwise writes a format and a data chunk |
| Wav.ScanChunks | examples/realtime-openai-go/wav.go:39-67 | on an even-padded chunk list the offset loop visits exactly the chunks |
| Wav.TakeChunksGathers | examples/realtime-openai-go/wav.go:47-62 | the chunk loop goes through exactly when every format chunk is long enough and the data fits, and gathers the payloads in order |
| Wav.ReaderOnChunks | examples/realtime-openai-go/wav.go:29-89 | the reader accepts an even-padded chunk list exactly under its stated conditions, and then returns the data payloads in order whatever the other chunks hold |
| Wav.WavRoundTrip | examples/realtime-openai-go/wav.go:29-142 | what the writer wrote reads back as the same PCM, exactly when it is within the reader's limit |
| WavExact.WrittenBytes | examples/realtime-openai-go/wav.go:100-142 | a written file is, byte by byte, the 44 bytes of header with both sizes least byte first and the format in between, and the samples |
| WavExact.OthersAreTurnedDown | examples/realtime-openai-go/wav.go:22-31 | a file above 16 MiB, and one that does not begin as RIFF and WAVE, is turned down for that |
| WavExact.FirstRefusedDecides | examples/realtime-openai-go/wav.go:47-62 | the first chunk that cannot be taken, a format too short or data beyond 15 MiB, is the reason |
| WavExact.CutShort | examples/realtime-openai-go/wav.go:41-46 | a last chunk of which less is there than it says is the reason |
| WavExact.NoFormatDecides | examples/realtime-openai-go/wav.go:68-70 | without any format chunk that is the reason |
| WavExact.FormatDecides | examples/realtime-openai-go/wav.go:71-89 | else the last format decides, field by field, then the data, and what is left is accepted with the data payloads in order |
| WavExact.LittleBehindIsIgnored | examples/realtime-openai-go/wav.go:39 | fewer than eight bytes behind the chunks do not matter |
| WavExact.LastNeedNotBePadded | examples/realtime-openai-go/wav.go:63-66 | nor does a missing padding byte of the last chunk |
| YamlTree.FindKey | internal/config/config_yaml.go:287-297 | the first entry with the key, or none |
| YamlTree.PrunedAt | internal/config/config_yaml.go:358-392 | a pruned mapping holds a key exactly when its entry is neither default nor emptied, with its pruned value |
| YamlTree.PruneKeepsTelling | internal/config/config_yaml.go:358-437 | pruning a new value loses no scalar that is neither zero nor a known default |
| YamlMatch.StructEqualSameId | internal/config/config_yaml.go:550-630 | structurally equal elements have the same identity, unless an alias is a key |
| YamlMatch.VerdictsDoNotMatter | internal/config/config_yaml.go:485-548 | without aliases among the generated elements, the matching depends on the trees alone |
| YamlMatch.FirstFree | internal/config/config_yaml.go:507-548 | the first unused element that matches, or none when none does |
| YamlMatch.SlotsAreTakenOnce | internal/config/config_yaml.go:485-505 | no old element is used twice |
| YamlMatch.IdentityFollows | internal/config/config_yaml.go:485-572 | an element that alone has its identity takes over the old element of that identity, wherever the two stand, if no generated key is an alias |
| YamlIdentity.IdentityExactly | internal/config/config_yaml.go:550-590 | a mapping is recognised by the first of the nine naming keys that has a text, whatever its case and blanks; without any, by its first text under whatever key; without that, by nothing |
| YamlIdentity.SameIdExactly | internal/config/config_yaml.go:507-528 | two elements have the same identity if and only if both are mappings recognised by the same thing or both scalars of the same text |
| YamlIdentity.EqualExactly | internal/config/config_yaml.go:592-630 | two trees without aliases are structurally equal if and only if they are the same but for comments, styles, tags and white space around texts |
| YamlIdentity.EachTakesTheFirst | internal/config/config_yaml.go:485-548 | each new element takes over the first old one of its identity that no earlier one took, without any the first structurally equal one, without any none |
| YamlIdentity.TrimExactly | internal/config/config_yaml.go:574-590 | trimming cuts the white space at both ends and nothing else |
| YamlIdentity.LowerExactly | internal/config/config_yaml.go:574-590 | lower case exchanges the capital letters place by place and leaves everything else |
| YamlMerge.MergeEntriesAt | internal/config/config_yaml.go:197-214 | what stands under a key after the merge depends only on what stood there and on the generated value, not on the order of the keys; an alias stands there as the name of its anchor |
| YamlMerge.KeepKeysAt | internal/config/config_yaml.go:720-749 | dropping missing keys leaves the value of every kept key |
| YamlMerge.KeepKeysOnly | internal/config/config_yaml.go:720-749 | only keys of the generated element are left |
| YamlMerge.TellingScalarsArrive | internal/config/config_yaml.go:181-283 | every generated scalar that is neither zero nor a known default of its key path stands at the same path of the result with the same tag and value, whatever the old document was |
| YamlSettings.SettingsArrive | internal/config/config_yaml.go:181-354 | whatever the existing document was, a generated scalar stands at its path afterwards unless it is, by tag and text, false, 0, 0.0, an empty string or null, or one of the five built-in defaults at its path |
| YamlSettings.BlanksAreNotAdded | internal/config/config_yaml.go:204-212 | under a key the existing document does not have, these blanks, integer weights aside, and these defaults are not written |
| YamlSettings.ZeroIsNothing | internal/config/config_yaml.go:397-437 | a tree counts as zero if and only if no path in it leads to an alias or to a scalar that is not such a blank |
| YamlSettings.NothingIsNotAdded | internal/config/config_yaml.go:204-212 | and no mapping or list that holds nothing else is added under a new key |
| YamlSettings.NothingEmptyIsAdded | internal/config/config_yaml.go:358-392 | under a new key no mapping and no list under a key is empty, neither as generated nor because what it held was not written |
| YamlMergeLaws.KeysKeepTheirOrder | internal/config/config_yaml.go:178-214 | the existing keys, with their comments, keep their order; exactly the new non-default keys follow, in generated order |
| YamlMergeLaws.ExistingNodesStay | internal/config/config_yaml.go:178-283 | at every path, into sequences too, an existing node keeps its comments and a mapping that stays one keeps its tag and the order of its keys; a node goes only under a key that a sequence element loses |
| YamlMergeLaws.UnmentionedStays | internal/config/config_yaml.go:197-214 | a value the generated document says nothing about is the same tree of nodes afterwards, its aliases still naming the same anchors; what they read as is `YamlAlias.ReadsAsBeforeIff` |
| YamlMergeLaws.ExistingIsUpdated | internal/config/config_yaml.go:201-204 | an existing value is always updated, to zero and default values too |
| YamlIdentity.KindsFollow | internal/config/config_yaml.go:220-283 | where an old value meets a new one at a key path, the result is of the new kind with the new text or length and the old comments; a mapping or list keeps its old tag if it was one, and a null stays where the new list is empty |
| YamlIdentity.RootFollows | internal/config/config_yaml.go:181-196 | so for the documents themselves; where one of them is no mapping, the new one replaces the old under its comments |
| YamlIdentity.OthersAreWritten | internal/config/config_yaml.go:252-266 | a new element that takes over no old one is written as it is, defaults included |
| YamlMergeLaws.NothingIsInvented | internal/config/config_yaml.go:181-283 | every scalar of the result stands at its path, into sequences too, in the generated document, or is that of the old node there and the generated one has nothing for it; with aliases in the generated document, along key paths |
| YamlMergeLaws.ElementsHaveOnlyNewKeys | internal/config/config_yaml.go:235-271 | a merged sequence has the generated length, and its mappings no key the generated element lacks |
| YamlMergeLaws.ElementsMeetTheirTwins | internal/config/config_yaml.go:247-262 | an element with its own identity is merged into the old element of that identity and keeps its comments |
| YamlMergeLaws.MergingWithTwin | internal/config/config_yaml.go:181-283 | merging a document that says the same, whatever is noted in it, changes nothing, where its elements are found equal to their twins |
| YamlMergeLaws.TreesKnowTheirTwins | internal/config/config_yaml.go:592-630 | which they are where the generated document has no aliases |
| YamlReading.ReadsEqualToItself | internal/config/config_yaml.go:592-630 | and nodes whose aliases lead to an end read equal to themselves |
| YamlMergeLaws.MergeIgnoresVerdicts | internal/config/config_yaml.go:181-283 | without aliases in the generated document, which is how the program renders it, the merge is a function of the two trees alone |
| YamlMergeLaws.LastDuplicateWins | internal/config/config_yaml.go:197-214 | of several scalars under one generated key the last one stands in the result, as soon as the key is there when it comes |
| YamlMergeLaws.DuplicateKeysLoseTheFirst | internal/config/config_yaml.go:197-214 | so a document with a key twice loses the first value |
| YamlMergeLaws.BlankKeysAreDropped | internal/config/config_yaml.go:720-749 | a blank key of a sequence element does not survive |
| YamlMergeLaws.AliasKeysMisidentify | internal/config/config_yaml.go:550-630 | with aliases as keys, structurally equal elements need not have the same identity |
| YamlMergeLaws.MovedYetTheSame | internal/config/config_yaml.go:485-548 | a generated sequence without aliases that takes over another old element than the one at its place, and merges into what was there before |
| YamlWeights.WeightArrives | internal/config/config_yaml.go:181-283 | at every path, through nested mappings and sequence elements, a generated integer weight arrives exactly when the way to it below the first new key is open and the new value is not zero once pruned |
| YamlWeights.WeightInPruned | internal/config/config_yaml.go:358-392 | in a pruned value the weight is found exactly when no value under a key on the way to it is zero as a whole |
| YamlWeights.LoneZeroWeightIsLost | internal/config/config_yaml.go:313-317 | so a zero weight alone in a new mapping is lost |
| YamlWeights.ZeroWeightBesideDefaultIsLost | internal/config/config_yaml.go:313-354 | and so is one beside a known default, in a mapping that is not all zero |
| YamlCopy.DeepCopySeen | internal/config/config_yaml.go:444-463 | terminates on every finite graph; returns the node's copy, extends the map by new nodes only, each a faithful copy |
| YamlCopy.CopyContent | internal/config/config_yaml.go:456-461 | the loop over the children fills the copy with the children's copies |
| YamlCopy.DeepCopy | internal/config/config_yaml.go:440-442 | exactly the reachable nodes are copied, each once, into a closed isomorphic graph of new nodes; the original is untouched |
| YamlCopy.CopyReadsAlike | internal/config/config_yaml.go:440-463 | the copy reads like the original to every depth, cycles and sharing included |
| YamlShape.CopyTree | internal/config/config_yaml.go:440-463 | copying a tree gives a tree of new nodes with the same value |
| YamlRead.IsZeroValueNode | internal/config/config_yaml.go:397-437 | the recursion and loops over node objects decide the specified zero values, to every depth |
| YamlRead.IsKnownDefaultValue | internal/config/config_yaml.go:313-354 | the decision over node objects is the specified one |
| YamlRead.FindMapKeyIndex | internal/config/config_yaml.go:287-297 | the place of the first key node with the name, or -1 when there is none or the node is no mapping |
| YamlRead.MappingScalarValue | internal/config/config_yaml.go:574-590 | the loop finds the first scalar under the key, whatever its case and blanks; in anything but a mapping, nothing |
| YamlRead.SequenceElementIdentity | internal/config/config_yaml.go:550-572 | the loops find the identity by key order first and by the first scalar second |
| YamlReading.NodesStructurallyEqual | internal/config/config_yaml.go:592-630 | on graphs with shared and aliased nodes, the recursion through content and alias pointers decides whether the two nodes read equal |
| YamlReading.TreesBound | internal/config/config_yaml.go:592-630 | trees that are equal whatever their aliases stand for read equal, and trees that read equal are equal but for what their aliases stand for |
| YamlReorder.MatchSequenceElement | internal/config/config_yaml.go:507-548 | the first unused element of the same identity, else of the same structure, else -1 |
| YamlReorder.OrderElements | internal/config/config_yaml.go:495-504 | the loop over the `used` marks places the old nodes by the specified slots |
| YamlReorder.ReorderSequenceForMerge | internal/config/config_yaml.go:485-505 | the content becomes the old nodes in the order of the new ones, null where there is none, by what the elements read as now, and stays when either side is empty |
| YamlEdit.CopyNodeShallow | internal/config/config_yaml.go:467-483 | the node reads like the source but for its own notes, over new nodes only |
| YamlEdit.PruneKnownDefaultsInNewNode | internal/config/config_yaml.go:358-392 | the tree pruned in place has the specified value and no node it had not before |
| YamlEdit.PruneMissingMapKeys | internal/config/config_yaml.go:720-749 | the removal in place leaves exactly the entries whose trimmed key the other mapping has, as the same key and value nodes |
| YamlInPlace.MergeElement | internal/config/config_yaml.go:252-262 | an element is a copy of the new one, or the same node object it took over, merged and cleared of missing keys, with nothing written but what the two elements tell beforehand |
| YamlFootprint.SlotIsTouched | internal/config/config_yaml.go:485-548 | whatever element is taken over, what its merge may write is within what the merge of the sequence may write; without generated aliases that is told from the two sequences |
| YamlFootprint.TakenIs | internal/config/config_yaml.go:258-262 | an element merged and cleared keeps its node and notes, the merged value under every key that is not blank and the generated element has, and all its children where it neither gains nor loses a key |
| YamlInPlace.MergeElements | internal/config/config_yaml.go:245-263 | the loop over the reordered content merges every element although old nodes have moved |
| YamlInPlace.MergeContent | internal/config/config_yaml.go:246-270 | reordering, merging, lengthening and cutting together give the specified elements |
| YamlInPlace.MergeMappingPreserve | internal/config/config_yaml.go:181-215 | merging in place keeps the root node object and the nodes of its existing values, writes only along shared keys, leaves a proper tree over old and new nodes, does not touch the generated document, and has the specified value |
| YamlInPlace.MergeNodePreserve | internal/config/config_yaml.go:220-283 | the same for every kind of node at every key path, aliases included |
| YamlAlias.MergeDocuments | internal/config/config_yaml.go:29-60 | the merge of two documents gives the merged value; outside the changed and moved nodes, which are told from the two documents before it, nothing is another than it was, the changed ones do differ, and every node whose pointers lead to neither unfolds as before to every depth |
| YamlChanges.WrittenAccounted | internal/config/config_yaml.go:181-283 | every node the merge may write, inside sequences too, is moved, or sure to differ, or just as it was |
| YamlChanges.UnmentionedIsUntouched | internal/config/config_yaml.go:197-214 | nothing below a key that the generated mapping does not have is written |
| YamlChanges.NothingChanges | internal/config/config_yaml.go:181-283 | a document saved without a change, sequences included, has no changed and no moved node |
| YamlChanges.SameValueStays | internal/config/config_yaml.go:197-214 | nor has any value that stays the same, whatever becomes of the rest of the document |
| YamlPicture.ReadsSameIff | internal/config/config_yaml.go:592-630 | in a graph of which only some nodes change, a node reads as before, to every depth, exactly when the changed nodes do that its pointers lead to first |
| YamlPicture.TakenLooksAlike | internal/config/config_yaml.go:592-630 | what a picture of the nodes shows from a node, to every depth, is what the nodes unfold to |
| YamlAlias.ReadsAsBeforeIff | internal/config/config_yaml.go:181-283 | a value of the document, mentioned or not, reads as before if its pointers lead to no changed and no moved node, and not if they lead to a changed one; where they lead to moved ones only, exactly when what they lead to first reads as before |
| YamlAlias.AliasFollowsItsAnchor | internal/config/config_yaml.go:272-276 | on a document with `a: &x 1` and `b: *x`, merged with `a: 2`, `b` reads 1 before and 2 after |

## Left out

- Sockets, TLS, dialing, timers and goroutine scheduling: the wrapped connection, the register and the send are steps that succeed, take less, or fail.
- Unicode: `strings.TrimSpace`, `strings.ToLower` work on ASCII; `strings.EqualFold` is a folding function given as a parameter.
- The header-order callback is a pure function of method and request target.
- OrderedConn.CutsDoNotMatter: speaks of error-free runs; the head limit and chunk errors fire at different points for different cuts, and `RequestConn.OrderedRequestConn.Write` says where.
- JSON parsing, item normalization, signature inspection and hashing: normalization is an abstract idempotent function, JSON equality an abstract canonical form, and cache keys are computed by the caller.
- AntigravityHome.HomeRefinesLocalRule: covers values this code wrote; foreign or undecodable register contents are not part of the model.
- AntigravitySize.HomeValueReadsBack: JSON is a lossless codec given as a parameter, with the length of base64 text; that the library is one is not proved.
- CodexRuns.AppendersAreLinearizable: a swap or read that reports an error is taken to have had no effect; a lost reply to a swap that went through is not modelled.
- The register's expiry is an event that may occur at any time; time-to-live arguments are not modelled.
- Revision counters of 64 bits are unbounded numbers: wrap-around after 2^64 stores is not modelled.
- The Home mode of the Claude cache, and the Kimi and xAI caches, which repeat the mechanisms above.
- Release tickets are numbers and their channels a set of closed tickets; the timer loop `Run`, the wake-up signal and `forceFlush` are left out.
- ReleaseFlusher.ReleaseFlusher.Flush: is stated for a flush that nobody interferes with; interleavings are in `ReleaseRuns`.
- The `recoveryState` compare-and-swap helpers of the client: its stability is an input of the step that reads it.
- Cluster discovery, failover and the subscriber loop of the client.
- Resp.Reader.BulkString: a length beyond the stream reads as an early end, where the program would first allocate the buffer, and panic for lengths near 2^63.
- Resp.Reader.Array: the same for a count beyond what can be allocated.
- The connection handler of the queue endpoint, authentication and the publish/subscribe loop.
- WAV file I/O, and formats other than those the reader checks.
- YamlInPlace.MergeNodePreserve: documents are as the YAML parser builds them: the content pointers make a tree, nodes are shared through alias pointers only, a mapping or sequence that is a key has no text of its own, the kinds are scalar, alias, mapping and sequence. Aliases of the generated document do not lead back to themselves, on which `nodesStructurallyEqual` would not end.
- YamlAlias.MergeDocuments: for generated documents without duplicate keys, as the program renders them. What an alias reads as is followed through its pointer; writing the file and reading it again by anchor names is not part of the model (an alias of a dropped sequence element would then have no anchor).
- YamlAlias.ReadsAsBeforeIff: where the pointers of a value lead to moved nodes only, the two documents do not settle it, and the condition is what the first of these read as afterwards. With aliases in the generated sequence, which the program does not render, the whole old sequence counts as moved.
- YAML text parsing and emitting, nil and kindless nodes, and an odd trailing key node.
- `pruneMappingToGeneratedKeys`, the removal of legacy sections, and style and comment indentation normalization.
