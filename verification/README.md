# Chromium net/base, verified in Dafny

This project models the self-contained algorithms and state machines of Chromium's `net/` base
layer and proves what they promise on every input, every run or every reachable state. Check it
with `dafny verify dfyconfig.toml`.

| files | component |
|---|---|
| `Interval`, `IntervalOrder`, `IntervalCompact`, `IntervalPairs`, `IntervalAlgebra`, `IntervalSet` | sets of integers as sorted, disjoint, non-adjacent intervals; the in-place merges agree with set algebra on points |
| `FileStreamProtocol`, `FileStreamContext` | the asynchronous file context on Windows: a protocol over outstanding notifications, and the flags of the code refining it |
| `Words`, `UInt128` | two-limb arithmetic modulo 2^128 |
| `FixedSet`, `FixedSetExample` | incremental lookup in a packed word graph, against the language the graph spells |
| `EscapeUrl`, `EscapeCharmaps`, `EscapeRoundTrip`, `EscapeAdjustments`, `EscapeBanned`, `EscapeHtml` | percent-escaping with rules and offset adjustments, the character sets, HTML entities |
| `Arena` | the arena allocator over a flat memory |
| `NetworkNotifier` | the Android delegate that removes duplicate network events, against what observers can replay |
| `UploadData`, `ChunkedUpload`, `ElementsUpload` | upload streams that read from appended chunks or from element readers |
| `Backoff`, `BackoffSerializer` | randomised exponential back-off, saved and restored |
| `IpPrefix` | prefix matching on the bits of IP addresses |
| `Basics` | shared types |

Objects that the source updates in place are classes here, and their methods say what the new
state is and keep `Valid()`. Because every method takes and returns a valid object, what `Valid()`
says holds after every sequence of calls. Ghost fields record what has happened so far (bytes
delivered, callbacks run, notifications sent) and are not part of the code.

I/O, clocks, random draws, the worker pool and the platform are parameters or arbitrary choices,
so that the results hold for all of their behaviour:

- *File context.* The client starts one operation at a time and none after orphaning. The worker
  reports once per task. An I/O completion arrives exactly when ReadFile or WriteFile succeeded or
  was pending.
- *Element readers.* A read is answered with an error, with at least one byte, or later.
- *Arena.* `operator new[]` returns memory that no block of the arena occupies.
- *Callbacks* run last in each method, so what a client does inside one is the next call.

## Where the code does something else than it says

- `IntervalSet::IsDisjoint` is documented to be true if no value of the interval is in the set. For
  an empty interval whose min is a member it is false; everywhere else it is as documented
  (`IntervalSets.IntervalSet.IsDisjoint`, `IntervalSets.IsDisjointExample`).
- `uint128 >>=` clears the high limb before reading it, so for amounts from 64 to 127 it gives 0. It
  agrees with `>>` exactly if the amount is outside that range or the value is below 2^amount
  (`UInt128s.InPlaceShiftRight`).
- The two notifications of an asynchronous read lead to the same end in either order exactly when
  ReadFile did not report success or reported the completion's outcome
  (`FileStreamProtocol.ReadConfluence`). A completion without an error always does. ReadFile
  reporting 5 bytes and the completion the end of the file does not
  (`FileStreamProtocol.ReadNotConfluent`).
- `EscapeNonASCII` is not undone by unescaping, because it lets `%` and hex digits through. Exactly
  the texts without an escape come back, or without an escape and a plus sign if plus signs are
  replaced (`EscapeRoundTrip.NonAsciiRoundTripIff`). For any character set, with the four rules and
  without keep_escaped, `EscapeRoundTrip.RoundTripIff` decides for each text whether it comes back.
- The comment on `kUrlEscape` lists `!` and leaves out `@`; the set itself has `@` and not `!`. All
  other bytes are as the comment says, and so are the other sets (`EscapeCharmaps.UrlContents`).
- Without the spoofing rule the unescaper leaves escapes of BiDi controls and locks alone, but its
  output can still contain one. It does so exactly when the text spells one with at least one raw byte
  (`EscapeBanned.BannedIff`), for example a raw byte D8 in front of the escape %9C.
- `UnsafeArena::Realloc` copies the old size also when the region shrinks. The copy stays in its
  block exactly if the region is resized in place, grows, or its old size fits the room left in the
  last block (the block size, if a new block is needed) (`Arenas.UnsafeArena.CopyFitsIff`). Otherwise it
  can change a live region (`Arenas.ShrinkingExample`).
- The check at the start of `UnsafeArena::Realloc` holds for every non-empty region, and can fail for
  an empty one left behind by `Free` (`Arenas.UnsafeArena.InUsedPart`, `Arenas.EmptyRegionExample`).
- The Android delegate resets its default network to the invalid handle when that network
  disconnects. Observers then hold the right default exactly if the invalid handle is not itself
  connected or was already announced (`NetworkNotifiers.NetworkNotifier.NotifyOfNetworkDisconnect`).
- The maximum back-off is documented as the longest delay of a request. A success keeps the release
  time within it exactly if the initial delay is not always used, is not above the maximum, or the
  largest time cuts it off (`Backoffs.BackoffEntry.InformOfRequest`,
  `Backoffs.UncappedSuccessExample`).

## Model

| member | source | states |
|---|---|---|
| `Intervals.IntersectsIffCommonPoint` | base/interval.h:140-142 | `Intersects` holds exactly if the intervals share a point, and the interval it stores has exactly the shared points |
| `Intervals.IncludesIffSubset` | base/interval.h:135-137 | `Contains(interval)` is inclusion of points, and false for an empty argument |
| `Intervals.Interval.Difference` | base/interval.h:253-298 | the two pieces have exactly the points of this interval that are not in the other; lo lies below hi with a gap; the result says whether they met |
| `Intervals.IntervalCell.IntersectWith` | base/interval.h:218-232 | leaves exactly the common points; returns whether anything changed |
| `Intervals.IntervalCell.SpanningUnion` | base/interval.h:234-252 | leaves the smallest interval covering both; returns whether anything changed |
| `IntervalOrder.CanonicalUnique` | base/interval_set.h:796-809 | two valid sets with the same points are the same sequence of intervals |
| `IntervalSets.IntervalSet.SpanningInterval` | base/interval_set.h:346-354 | the smallest interval covering the set; empty exactly for the empty set |
| `IntervalSets.IntervalSet.Contains` | base/interval_set.h:400-409 | the upper_bound lookup decides membership |
| `IntervalSets.IntervalSet.ContainsInterval` | base/interval_set.h:411-419 | true exactly for non-empty intervals all of whose points are members |
| `IntervalSets.IntervalSet.ContainsSet` | base/interval_set.h:421-434 | true exactly for non-empty subsets |
| `IntervalSets.IntervalSet.Find` | base/interval_set.h:485-497 | the one interval that contains the value, or the end if there is none |
| `IntervalSets.IntervalSet.FindInterval` | base/interval_set.h:542-554 | the one interval that includes the probe, or the end if there is none |
| `IntervalSets.IntervalSet.IsDisjoint` | base/interval_set.h:556-567 | exactly when the answer is disjointness of points, and what it is otherwise |
| `IntervalSets.IsDisjointExample` | base/interval_set.h:556-567 | the documented meaning fails for an empty interval inside the set |
| `IntervalSets.IntervalSet.Equals` | base/interval_set.h:386-398 | true exactly if both sets have the same points |
| `IntervalSets.IntervalSet.CheckValid` | base/interval_set.h:796-809 | the integrity loop decides exactly the documented representation |
| `IntervalSets.IntervalSet.Compact` | base/interval_set.h:766-794 | a sorted range becomes a canonical one with the same points although it is erased and inserted under the iterators; the rest of the set is untouched |
| `IntervalSets.IntervalSet.Add` | base/interval_set.h:356-377 | the result has the union of points and is valid: compacting from the left neighbour to upper_bound of the end is enough |
| `IntervalSets.IntervalSet.AddSet` | base/interval_set.h:379-384 | the result is valid and has the union of points; adding the set to itself changes nothing |
| `IntervalSets.IntervalSet.Union` | base/interval_set.h:569-573 | the result is valid and has the union of points, also for the set itself |
| `IntervalPairs.FindNextIntersectingPairImpl` | base/interval_set.h:598-632 | both cursors skip only intervals that share nothing with the other side, and stop at an intersecting pair or when no pair is left |
| `IntervalSets.IntervalSet.Intersects` | base/interval_set.h:672-685 | true exactly if the sets share a point |
| `IntervalSets.IntervalSet.CutHere` | base/interval_set.h:646-668 | one round keeps: what is before the cursor is final, the rest still to be cut by the other's intervals from theirs on, and theirs is not the end |
| `IntervalSets.IntervalSet.Intersection` | base/interval_set.h:634-670 | terminates, is valid and leaves exactly the points in both sets |
| `IntervalSets.IntervalSet.SplitHere` | base/interval_set.h:716-735 | one round keeps the points still to be removed and makes progress although hi is inserted again under the cursor |
| `IntervalSets.IntervalSet.Difference` | base/interval_set.h:700-737 | terminates, is valid and leaves exactly the points of this set that are not in the other |
| `IntervalSets.IntervalSet.DifferenceInterval` | base/interval_set.h:687-693 | removes exactly the points of the interval |
| `IntervalSets.IntervalSet.Complement` | base/interval_set.h:739-744 | leaves exactly the points of [min, max) that were not members |
| `FileStreamProtocol.StepKeepsInv` | base/file_stream_context_win.cc:69-245 | every notification, call and orphaning keeps the protocol invariant: which notifications an operation can still have outstanding, and how callbacks and teardown relate to them |
| `FileStreamProtocol.EveryRun` | base/file_stream_context_win.cc:69-245 | in every run callbacks happen at most once per operation and in order; never orphaned and nothing outstanding means all have run; teardown happens at most once and exactly when orphaned with nothing outstanding |
| `FileStreamProtocol.CallsTellWhatWasReported` | base/file_stream_context_win.cc:137-245 | in every run each callback runs at one event, after the event that started its operation, and is given what the worker and the completion port reported between the two |
| `FileStreamProtocol.SystemDrains` | base/file_stream_context_win.cc:137-245 | while something is outstanding a notification is possible, and at most three in a row end the operation |
| `FileStreamProtocol.NoCallAfterOrphan` | base/file_stream_context.cc:70-82 | after Orphan no run contains a callback or a new operation |
| `FileStreamProtocol.NothingAfterTearDown` | base/file_stream_context.cc:214-228 | once torn down, only the posted file close can happen, once |
| `FileStreamProtocol.ReadConfluence` | base/file_stream_context_win.cc:137-245 | completion and worker result give the same world in either order exactly under the stated condition, and the callback gets the completion's outcome |
| `FileStreamProtocol.SuccessfulReadConfluence` | base/file_stream_context_win.cc:137-245 | a completion without an error gives the same world in either order |
| `FileStreamProtocol.ReadNotConfluent` | base/file_stream_context_win.cc:137-245 | a run from creation in which the order decides what the client is told |
| `FileStreamProtocol.OrphanedReadConfluence` | base/file_stream_context_win.cc:137-245 | orphaned, both orders end in the same teardown |
| `FileStreamProtocol.OffsetIsBytesMoved` | base/file_stream_context_win.cc:137-176 | over every run without a seek the offset advances by exactly the bytes of the successful completions, modulo 2^64 |
| `FileStreamProtocol.SeekSetsOffset` | base/file_stream_context_win.cc:115-121 | a seek puts the offset at its target and reports it once |
| `FileStreamContexts.SetOffset` | base/file_stream_context_win.cc:24-27 | the two halves hold the offset modulo 2^64 |
| `FileStreamContexts.IncrementOffset` | base/file_stream_context_win.cc:29-35 | the offset grows by count, with carry between the halves and wrap-around at 2^64 |
| `FileStreamContexts.Context.constructor` | base/file_stream_context_win.cc:39-64 | the flags start in the initial world of the protocol |
| `FileStreamContexts.Context.Orphan` | base/file_stream_context.cc:70-82 | refines the protocol step: tears down at once exactly if nothing is in progress |
| `FileStreamContexts.Context.StartTask` | base/file_stream_context.cc:84-144 | Open, Close, Seek and Flush refine the start of an operation |
| `FileStreamContexts.Context.Read` | base/file_stream_context_win.cc:69-90 | refines the start of a read and returns ERR_IO_PENDING |
| `FileStreamContexts.Context.Write` | base/file_stream_context_win.cc:92-113 | asynchronous exactly if WriteFile succeeded or is pending; otherwise the mapped error and no operation |
| `FileStreamContexts.Context.RunOnWorker` | base/file_stream_context.cc:160-203 | a worker task becomes its reply and, for a read, an outstanding completion |
| `FileStreamContexts.Context.InvokeUserCallback` | base/file_stream_context_win.cc:178-196 | runs the callback with the stored result unless a read still lacks one of its notifications, and clears the read's flags |
| `FileStreamContexts.Context.OnIOCompleted` | base/file_stream_context_win.cc:137-176 | result, offset, callback and teardown after a completion, in every state of the flags |
| `FileStreamContexts.Context.ReadAsyncResult` | base/file_stream_context_win.cc:222-245 | result, callback and teardown after the worker's report, in every state of the flags |
| `FileStreamContexts.Context.AsyncReply` | base/file_stream_context.cc:235-251 | the reply of Close, Seek or Flush refines the protocol step |
| `FileStreamContexts.Context.OnOpenCompleted` | base/file_stream_context.cc:205-212 | the reply of Open refines the protocol step, also when the context was orphaned meanwhile |
| `FileStreamContexts.Context.ReadReply` | base/file_stream_context_win.cc:207-245 | the worker's report refines the protocol step, before or after the completion |
| `FileStreamContexts.Context.IoCompletion` | base/file_stream_context_win.cc:137-176 | the completion refines the protocol step, for reads and writes, before or after the worker's report |
| `FileStreamContexts.Context.OwnedClose` | base/file_stream_context.cc:193-228 | the close posted by teardown refines the last protocol step |
| `UInt128s.Lt` | base/int128.h:138-150 | limb-wise comparison is comparison of values |
| `UInt128s.Ge` | base/int128.h:138-150 | limb-wise comparison is comparison of values |
| `UInt128s.Negate` | base/int128.h:154-162 | value and result add up to 0 modulo 2^128 |
| `UInt128s.FromInt` | base/int128.h:126-130 | a negative int is sign-extended: the value is the int modulo 2^128 |
| `UInt128s.ShiftLeft` | base/int128.h:201-217 | multiplication by 2^amount modulo 2^128, for every amount |
| `UInt128s.ShiftRight` | base/int128.h:219-235 | division by 2^amount rounded down, for every amount |
| `UInt128s.InPlaceShiftRight` | base/int128.h:255-271 | exactly when `>>=` agrees with `>>`; it gives 0 whenever it does not |
| `UInt128s.InPlaceShiftRightExample` | base/int128.h:255-271 | 2^64 shifted in place by 64 is 0 instead of 1 |
| `UInt128s.KeptTerms` | base/int128.h:302-323 | the partial products the code keeps, with c96 and c64 wrapped, are congruent to the whole product modulo 2^128 |
| `UInt128s.ProductLimbs` | base/int128.h:302-323 | the terms computed from the 32-bit halves add up to the product modulo 2^128 |
| `UInt128s.UInt128.AddAssign` | base/int128.h:285-292 | addition modulo 2^128, also to itself |
| `UInt128s.UInt128.SubAssign` | base/int128.h:294-300 | subtraction modulo 2^128, also from itself |
| `UInt128s.UInt128.ShiftLeftAssign` | base/int128.h:237-253 | multiplication by 2^amount modulo 2^128 |
| `UInt128s.UInt128.ShiftRightAssign` | base/int128.h:255-271 | leaves what the in-place code computes, which `InPlaceShiftRight` compares with division |
| `UInt128s.UInt128.MulAssign` | base/int128.h:302-323 | multiplication modulo 2^128 for all operands, also by itself |
| `FixedSets.GetNextOffset` | base/lookup_string_in_fixed_set.cc:18-43 | yields the children of an offset list one after the other, reads inside the graph, and stops after the last |
| `FixedSets.IncrementalLookup.Advance` | base/lookup_string_in_fixed_set.cc:84-148 | what can follow is exactly what could follow the longer input; false exactly when exhausted, and exhausted is absorbing |
| `FixedSets.IncrementalLookup.GetResultForCurrentSequence` | base/lookup_string_in_fixed_set.cc:150-178 | v exactly if the graph spells the input so far with return value v |
| `FixedSets.LookupStringInFixedSet` | base/lookup_string_in_fixed_set.cc:180-196 | returns v exactly if the graph spells the key followed by v, and -1 if it spells none |
| `FixedSets.CommitChar` | base/lookup_string_in_fixed_set.cc:84-148 | committing to the first matching child loses no word |
| `FixedSets.LeadsToWord` | base/lookup_string_in_fixed_set.cc:84-148 | in a graph without dead ends every place that is not exhausted leads to a word |
| `FixedSets.ExhaustedIffNoWord` | base/lookup_string_in_fixed_set.cc:84-148 | hence the lookup is exhausted exactly if the input is a prefix of no word |
| `FixedSetExample.LookUp` | base/lookup_string_in_fixed_set.cc:180-196 | on a four-byte graph for one word, the lookup finds the word's value |
| `EscapeUrl.Escape` | base/escape.cc:39-61 | the loop computes the escape of the text, byte by byte |
| `EscapeUrl.UnescapeUnsignedCharAtIndex` | base/escape.cc:101-122 | succeeds exactly on a percent sign and two hex digits, with the byte they stand for |
| `EscapeUrl.HasArabicLanguageMarkAtIndex` | base/escape.cc:124-136 | recognises exactly the escaped Arabic letter mark |
| `EscapeUrl.HasThreeByteBidiControlCharAtIndex` | base/escape.cc:138-160 | recognises exactly the escaped three-byte BiDi controls |
| `EscapeUrl.HasFourByteBannedCharAtIndex` | base/escape.cc:162-192 | recognises exactly the escaped locks |
| `EscapeUrl.UnescapeURLWithAdjustments` | base/escape.cc:199-315 | the loop computes the unescaped text and the adjustments of the specification, for every rule set |
| `EscapeRoundTrip.RoundTripIff` | base/escape.cc:39-315 | for every text, character set and flags, unescaping with the four rules gives the text back exactly if it has no percent escape of three bytes that are all let through and no byte that the plus rules change |
| `EscapeRoundTrip.AlwaysRoundTripsIff` | base/escape.cc:39-315 | exactly the character sets and flags for which every text comes back |
| `EscapeRoundTrip.EscapersRoundTrip` | base/escape.cc:354-412 | EscapeQueryParamValue, EscapePath and EscapeUrlEncodedData are inverted on every byte string, with plus signs once that rule is added |
| `EscapeRoundTrip.PathWithPlusRule` | base/escape.cc:361-402 | with the plus rule added, exactly the paths without a plus sign come back |
| `EscapeRoundTrip.NonAsciiRoundTripIff` | base/escape.cc:381-416 | exactly which texts EscapeNonASCII brings back |
| `EscapeRoundTrip.NonAsciiExample` | base/escape.cc:381-416 | the text %41 does not come back |
| `EscapeRoundTrip.KeepEscapedIdempotent` | base/escape.cc:39-61 | with keep_escaped, escaping twice is escaping once, for every set with the percent sign and without hex digits |
| `EscapeRoundTrip.ExternalHandlerIdempotent` | base/escape.cc:387-420 | EscapeExternalHandlerValue is idempotent on every text |
| `EscapeRoundTrip.KeepEscapedMeaning` | base/escape.cc:39-61 | with keep_escaped and such a set, the escaped text stands for what the text stands for, exactly unless a plus sign is escaped that the rules would replace |
| `EscapeRoundTrip.ExternalHandlerKeepsMeaning` | base/escape.cc:387-420 | EscapeExternalHandlerValue never changes what a text stands for |
| `EscapeCharmaps.QueryContents` | base/escape.cc:354-359 | the set has exactly the bytes of its comment |
| `EscapeCharmaps.PathContents` | base/escape.cc:361-365 | the set has exactly the bytes of its comment |
| `EscapeCharmaps.UrlContents` | base/escape.cc:375-379 | the set has exactly the bytes of its comment but for two |
| `EscapeCharmaps.NonAsciiContents` | base/escape.cc:381-385 | the set has exactly the bytes of its comment |
| `EscapeCharmaps.ExternalContents` | base/escape.cc:387-392 | the set has exactly the bytes of its comment |
| `EscapeAdjustments.AdjustmentsDescribeOutput` | base/escape.cc:199-315 | adjustments increase without overlap, each shortens the output by two, replaced escapes and untouched bytes are found in the output where the adjustments put them |
| `EscapeBanned.BannedIff` | base/escape.cc:124-315 | for every text and rule set, exactly when the output contains a listed BiDi control or lock |
| `EscapeBanned.NoBannedCharacters` | base/escape.cc:124-315 | in particular never for ASCII text without the spoofing rule |
| `EscapeBanned.BannedFromMixedText` | base/escape.cc:124-315 | a text with one raw byte and one escape whose output is one |
| `EscapeHtml.AppendEscapedCharForHTML` | base/escape.cc:317-340 | appends the entity of a character, or the character |
| `EscapeHtml.EscapeForHTML` | base/escape.cc:342-352 | the loop computes the escape of the string |
| `EscapeHtml.UnescapeForHTML` | base/escape.cc:471-507 | the in-place replacement computes one left-to-right pass over the string |
| `EscapeHtml.HtmlRoundTrip` | base/escape.cc:317-507 | unescaping inverts escaping on every string |
| `EscapeHtml.EscapedIsInert` | base/escape.cc:317-352 | escaped text has no angle bracket and no quote |
| `Arenas.UnsafeArena.AllocBlock` | base/arena.cc:85-90 | appends an unused block; bytes allocated stay the sum of the block sizes |
| `Arenas.UnsafeArena.Reserve` | base/arena.cc:74-83 | afterwards the last block has room; a new block is added exactly if it had not |
| `Arenas.UnsafeArena.Alloc` | base/arena.cc:22-29 | hands out a region inside a block and apart from every live region |
| `Arenas.UnsafeArena.Memdup` | base/arena.cc:51-55 | the new region holds the data, and no live region changes |
| `Arenas.UnsafeArena.Realloc` | base/arena.cc:31-49 | resized in place or moved, the region keeps its first bytes, no live region changes, and all stay apart |
| `Arenas.UnsafeArena.CopyFitsIff` | base/arena.cc:31-49 | exactly when the copy stays inside the block, in terms of sizes and the room left |
| `Arenas.UnsafeArena.InUsedPart` | base/arena.cc:34-36 | the check holds for every non-empty live region in the last block |
| `Arenas.ShrinkingExample` | base/arena.cc:46-48 | a reachable arena in which shrinking a region changes a live region of the next block |
| `Arenas.EmptyRegionExample` | base/arena.cc:34-36 | a reachable arena in which the check fails for an empty live region |
| `Arenas.UnsafeArena.Free` | base/arena.cc:57-67 | gives back the space exactly of the most recent allocation; the other live regions stay valid |
| `Arenas.UnsafeArena.Reset` | base/arena.cc:69-72 | no block, no live region and no bytes allocated are left |
| `NetworkNotifiers.NetworkNotifier.constructor` | android/network_change_notifier_delegate_android.cc:74-96 | observers start with the initial networks and default |
| `NetworkNotifiers.NetworkNotifier.NotifyConnectionTypeChanged` | android/network_change_notifier_delegate_android.cc:153-184 | announces a new default only if it is connected; replaying the log still gives the map |
| `NetworkNotifiers.NetworkNotifier.NotifyOfNetworkConnect` | android/network_change_notifier_delegate_android.cc:203-225 | a connection is announced once, with the delayed default after it; replaying the log still gives the map |
| `NetworkNotifiers.NetworkNotifier.NotifyOfNetworkSoonToDisconnect` | android/network_change_notifier_delegate_android.cc:227-239 | announced only for connected networks |
| `NetworkNotifiers.NetworkNotifier.NotifyOfNetworkDisconnect` | android/network_change_notifier_delegate_android.cc:241-255 | a disconnection is announced once; exactly when the observers keep the right default |
| `NetworkNotifiers.NetworkNotifier.NotifyPurgeActiveNetworkList` | android/network_change_notifier_delegate_android.cc:257-283 | leaves exactly the old networks that are active, and announces the others in key order |
| `NetworkNotifiers.Alternates` | android/network_change_notifier_delegate_android.cc:203-255 | in every log the delegate can produce, connections and disconnections of a network alternate |
| `NetworkNotifiers.Plausible` | android/network_change_notifier_delegate_android.cc:153-283 | every prefix of such a log can be replayed: each notification names a network that is connected, or not yet, at that moment |
| `NetworkNotifiers.InvalidHandleExample` | android/network_change_notifier_delegate_android.cc:241-255 | with the invalid handle connected the observers can hold the wrong default |
| `UploadData.BeforeIsPrefix` | base/chunked_upload_data_stream.cc:94-121 | what lies before a read position is a prefix of the concatenated parts, and all of it only at the end |
| `ChunkedUploads.ChunkedUploadStream.DeliveredIsPrefix` | base/chunked_upload_data_stream.cc:45-121 | after every interleaving of append, read and reset the delivered bytes are a prefix of the appended ones; the final flag means all are appended and delivered |
| `ChunkedUploads.ChunkedUploadStream.ReadChunk` | base/chunked_upload_data_stream.cc:94-121 | copies the next bytes, as many as fit; pending exactly if there is nothing to read and more may come; sets the final flag exactly at the end of all data |
| `ChunkedUploads.ChunkedUploadStream.ReadInternal` | base/chunked_upload_data_stream.cc:75-85 | remembers the buffer exactly if the read is pending |
| `ChunkedUploads.ChunkedUploadStream.Read` | base/upload_data_stream.cc:74-96 | delivers the next bytes; waits only when everything appended is delivered; zero only at the end |
| `ChunkedUploads.ChunkedUploadStream.AppendData` | base/chunked_upload_data_stream.cc:45-65 | nothing is lost, and a waiting read completes at once with as many of the new bytes as fit, never with an error |
| `ChunkedUploads.ChunkedUploadStream.Init` | base/upload_data_stream.cc:54-72 | rewinds and succeeds |
| `ChunkedUploads.ChunkedUploadStream.Reset` | base/upload_data_stream.cc:104-126 | rewinds, keeps what was appended and drops a waiting read without a callback |
| `ElementsUploads.ElementsUploadStream.DeliveredIsPrefix` | base/elements_upload_data_stream.cc:104-155 | after every interleaving the delivered bytes are a prefix of the concatenated elements; the end is reported exactly at their end |
| `ElementsUploads.ElementsUploadStream.InitElements` | base/elements_upload_data_stream.cc:68-90 | on success all readers are rewound and the size is the sum of their lengths; a reader that has to be waited for or fails stops it |
| `ElementsUploads.ElementsUploadStream.Init` | base/upload_data_stream.cc:54-72 | ready exactly on OK, waiting exactly on ERR_IO_PENDING |
| `ElementsUploads.ElementsUploadStream.OnInitElementCompleted` | base/elements_upload_data_stream.cc:92-102 | goes on with the next element or reports once; reports from before a reset change nothing |
| `ElementsUploads.ElementsUploadStream.OnInitCompleted` | base/upload_data_stream.cc:150-168 | ready exactly on OK, and at the end at once if there is nothing to send |
| `ElementsUploads.ElementsUploadStream.ReadElements` | base/elements_upload_data_stream.cc:104-132 | terminates; the buffer holds exactly what was taken from the readers; an error is returned only with an empty buffer; after an error nothing more is read |
| `ElementsUploads.ElementsUploadStream.ProcessReadResult` | base/elements_upload_data_stream.cc:144-155 | bytes stay in the buffer, an error is remembered |
| `ElementsUploads.ElementsUploadStream.OnReadCompleted` | base/upload_data_stream.cc:170-189 | delivers the buffer, sets the end exactly at the total size, runs a waiting callback once |
| `ElementsUploads.ElementsUploadStream.Read` | base/upload_data_stream.cc:74-96 | delivers the next bytes; zero only at the end; an error only after every byte taken was delivered, and then again on every later read |
| `ElementsUploads.ElementsUploadStream.OnReadElementCompleted` | base/elements_upload_data_stream.cc:134-142 | the read waits again with more bytes in its buffer, or completes with one callback; an error only with nothing left to deliver; answers from before a reset change nothing |
| `ElementsUploads.ElementsUploadStream.Reset` | base/elements_upload_data_stream.cc:62-66 | everything pending is dropped without a callback |
| `Backoffs.BackoffDurationToReleaseTime` | base/backoff_entry.cc:159-184 | the checked 64-bit arithmetic gives exactly the smallest of sum, limit and largest time |
| `Backoffs.DelaySaturates` | base/backoff_entry.cc:138-151 | the conversion of the delay rounds, and saturates instead of wrapping |
| `Backoffs.JitterShortens` | base/backoff_entry.cc:138-147 | jitter shortens the delay by at most the jitter factor |
| `Backoffs.CalculateReleaseTime` | base/backoff_entry.cc:121-157 | a failure never moves the release time back |
| `Backoffs.DocumentedDelays` | base/backoff_entry.h:56-63 | the documented series of delays for every policy: none or the initial one for ignored errors, then the initial one, then a multiple more with each failure |
| `Backoffs.MoreFailuresWaitLonger` | base/backoff_entry.cc:121-157 | jitter aside, more failures never give an earlier release, also when the delay or the sum saturates |
| `Backoffs.ReleaseWithinHorizon` | base/backoff_entry.cc:121-157 | and never beyond the clock plus the horizon, for every draw |
| `Backoffs.SuccessCappedIff` | base/backoff_entry.cc:57-60 | exactly when a success keeps the release time within the maximum |
| `Backoffs.BackoffEntry.InformOfRequest` | base/backoff_entry.cc:34-62 | failure count and release time afterwards; release times ascend since the last reset and stay within the horizon of the latest clock; a failure keeps them within the maximum, a success exactly if it is capped |
| `Backoffs.UncappedSuccessExample` | base/backoff_entry.cc:57-60 | one success on a new entry waits longer than the maximum |
| `Backoffs.BackoffEntry.Reset` | base/backoff_entry.cc:108-115 | back to the state after construction |
| `BackoffSerializers.DecodeInvertsSerialize` | base/backoff_entry_serializer.cc:22-81 | what was written is read back; only a release time before the epoch is refused |
| `BackoffSerializers.DeserializeFromValue` | base/backoff_entry_serializer.cc:43-95 | an entry exactly for well-formed values, with the saved failure count and the release time of the delay left |
| `BackoffSerializers.NeverLengthens` | base/backoff_entry_serializer.cc:81-92 | under any clocks the restored entry does not wait longer than the saved one had to |
| `BackoffSerializers.RestoredIff` | base/backoff_entry_serializer.cc:81-92 | when both clocks advance equally the release time is restored exactly if the delay left is within the maximum |
| `IpPrefixes.IPAddressPrefixCheck` | base/ip_address.cc:25-45 | true exactly if the first bits agree, for every length |
| `IpPrefixes.CommonPrefixLength` | base/ip_address.cc:384-398 | the length of the longest common prefix; the end of the bit loop is not reached |
| `IpPrefixes.MatchIffCommonPrefix` | base/ip_address.cc:25-45 | a prefix of n bits matches exactly if the common prefix has at least n bits |
| `IpPrefixes.MaskPrefixLength` | base/ip_address.cc:400-403 | the number of leading one bits |
| `IpPrefixes.ConvertIPv4ToIPv4MappedIPv6` | base/ip_address.cc:296-306 | a mapped IPv6 address that converts back |
| `IpPrefixes.ConvertIPv4MappedIPv6ToIPv4` | base/ip_address.cc:308-314 | the IPv4 address whose mapping this is |
| `IpPrefixes.MappingKeepsPrefix` | base/ip_address.cc:296-340 | mapping both sides shifts the prefix by 96 bits and changes nothing else |
| `IpPrefixes.IPAddressMatchesPrefix` | base/ip_address.cc:316-340 | for every mix of families, matching is matching of the mapped addresses, with 96 added for an IPv4 prefix |

## Left out

- IntervalSets.IntervalSet.Intersection: not for a set with itself, where the source erases the elements it still iterates over.
- IntervalSets.IntervalSet.Difference: not for a set with itself, for the same reason.
- Arenas.UnsafeArena.Realloc: only for copies that stay inside the block; `CopyFitsIff` says exactly which ones do.
- Arenas.UnsafeArena.Alloc: sizes are unbounded, so an overflow of size_t is not modelled.
- FileStreamContexts.Context.Write: the table of MapSystemError is a parameter; only that ERROR_IO_PENDING maps to ERR_IO_PENDING is used.
- FileStreamContexts.Context.Read: last_operation_ and in_flight_buf_, which only debug or keep memory alive, are not modelled.
- Backoffs.BackoffEntry.InformOfRequest: real numbers instead of floating point, and a failure count without the limit of int.
- BackoffSerializers.DeserializeFromValue: the decimal string of an integer is modelled by the integer; parsing and printing it is not.
- ElementsUploads.ElementsUploadStream.Init: the contents of an element do not change between initialisations.
- EscapeUrl.UnescapeURLWithAdjustments: the 8-bit form only; the 16-bit instantiation and the decoding to UTF-16 behind it are not modelled.
- IntervalSet over types other than integers, printing, and iteration from outside.
- The POSIX file context, and file I/O, task runners and message loops themselves.
- uint128 increment, decrement, bitwise operators, literals and printing.
- EscapeNSURLPrecursor, an instance of `KeepEscapedIdempotent` with another character set.
- JNI bridges, keystore, traffic statistics and certificate code under `android/`; bandwidth and connection subtype of the delegate.
- UploadProgress, NetLog events, IsInMemory, and the Writer that forwards to a chunked stream.
- CanDiscard, ShouldRejectRequest and GetTimeUntilRelease of the back-off entry, which are single comparisons.
- Parsing and printing of IP addresses, reserved ranges and CIDR blocks.
- `address_tracker_linux.cc`, `linked_hash_map.h`, `expiring_cache.h`, `io_buffer`, `host_port_pair`, `ip_pattern`, `hash_value`, `data_url`, `filename_util` and `host_mapping_rules`.
