# TuniCore's guard, modelled and proved in Dafny

TuniCore is a small kernel whose agents act only through capabilities that the kernel owns.  This
project models the kernel's guard and the exact algorithms around it, and proves what they promise.

* **Capabilities** (`Capabilities`, `CapTable`, `CapabilityRuns`).  The flat slot array is a delegation
  forest.  `CapTable` is the table updated in place, with the cascade that recurses inside a loop over
  the array it changes.  The reference it is measured against is the run's own history: which handles
  were ever named for revocation, and a slow check that walks the whole delegation chain.
* **Agents and system calls** (`Agents`, `Machine`, `Kernel`, `MachineRuns`, `HostCalls`).  Spawning,
  killing, timeouts, the I/O budget, agent executions and the four system calls, first as steps of one
  value, then as methods over the mutable tables, then over all runs.
* **Frames** (`Bitmap`, `Frames`, `FrameAllocator`).  The bitmap allocator, with real operations on
  bytes, refines a set of free frames.
* **Edit distance** (`EditDistance`, `Suggest`).  The two-row table computes the least cost of an edit
  script, and the command suggestion is the exact nearest command.
* **Audit trail** (`Fnv`, `AuditLog`).  A ring of entries linked by 64-bit FNV-1a (section 2, "FNV
  Basics", of draft-eastlake-fnv), in arithmetic modulo 2^64.
* **Language-model framing** (`LlmKernel`, `LlmBridge`).  The kernel's six-state parser and the Python
  bridge's demultiplexer, and the round trip through both.
* **Shell** (`Text`, `Alias`, `Rewriting`, `Chains`, `Expansion`, `Shell`).  Re-execution through
  aliases and `!!`: first of any lines under any rules (`Rewriting`), then of lines whose first word is
  looked up in a finite table (`Chains`), then of the shell's own, which obey those rules (`Expansion`).
* **Rings** (`Rings`, `Channel`, `History`).  Channels, command history and kernel log as windows onto
  sequences.

A method on a class is proved against a function of its old state; what the source promises is then
proved of that function, or of whole runs built from it, by lemmas.

## Where the code falls short of its documentation

In each case the model follows the code and the exact condition is proved.

* The audit trail is described as tamper-proof.  The hash covers tick, agent, event and previous hash
  only; `WhenTamperingPasses` says exactly which rewrites of one entry pass, and
  `HandleAndResultAreNotCovered` gives the handle and the result as fields nobody would miss.
* The edit distance answers any target of 31 bytes or more with its length; `ExactUpToThirty` shows the
  answer is right for all inputs iff the target has at most 30 bytes.  No listed command is that long.
* `free` takes back any frame that is in use, whoever holds it, even one that was never usable;
  `FreeIsSafeIff` says exactly when that leaves the books in order.
* The reported number of free frames charges the first 256 frames whether or not they were usable;
  `ReportedFree` says exactly when it is right.
* An agent execution that fails in the engine keeps its agent and its capabilities;
  `ExecutionRestoresIff` says exactly when the live capabilities are restored.
* The kernel's response parser does not resynchronise on an STX inside a header; `FrameOutcome` says
  what becomes of every response in every parser state.  A response that holds an ETX is cut there;
  `ResponseIsReceived` says exactly when that loses anything.
* Nothing bounds how often `execute` re-enters itself.  `EveryLineIsDecided` says for every line whether
  it is dispatched, repeats the history, or exhausts any stack.  A chain that goes round a
  cycle of aliases does the last.  So does a chain that comes to the bare `!!`, because the line before
  it is in the history by then; only `history`, whose use is never recorded, can be an alias for `!!`
  that works.  An alias for `!!` used with arguments repeats nothing and is dispatched (`AliasForRepeat`).
* The history is meant to skip `!!`.  It never records that line (`HistoryNeverHoldsRepeat`), but a long
  line cut to 127 bytes may read as `!!`; `CutLineReadsAsRepeat` says exactly which, and after one of
  those `!!` exhausts any stack (`RepeatAlone`).
* The kernel log's `recent` yields the oldest entry first, although its comment says newest first.
* The escalation error of `delegate` cannot occur (`HandlesAreConsecutive`).
* Delegating needs no grant right, because the parent is only checked for the rights passed on.
  `DelegationWithoutGrantRight` gives an instance, and `GrantRightIsIdle` says exactly when no delegation
  gets by without the right.
* Reads and writes do not ask whose the handle is; `AccessIsByOwnerIff` says exactly when every access an
  agent can make is by way of a handle of its own.
* A terminated agent can be given capabilities again; `KilledAgentOwnsOnlyGifts` says exactly when it owns
  something live.

## Model

| member | source | states |
|---|---|---|
| `Capabilities.CascadeRevokesSubtree` | kernel/src/cap_table.rs:144-174 | from a closed forest, revoking a handle newly revokes exactly the live entries that have it on their parent chain |
| `Capabilities.MarkTwice` | kernel/src/cap_table.rs:144-174 | revoking two sets of roots one after the other is revoking their union at once |
| `Capabilities.MarkRevokedIsNoop` | kernel/src/cap_table.rs:152-154 | revoking an already revoked handle changes nothing, which is what the early return relies on |
| `Capabilities.RevocationsCommute` | kernel/src/cap_table.rs:144-174 | revocations commute and are idempotent |
| `Capabilities.RevokeInOrder` | kernel/src/cap_table.rs:144-174 | any sequence of revocations is the union of the subtrees, whatever its order and repetitions |
| `Capabilities.SweepIsMark` | kernel/src/cap_table.rs:218-242 | a sweep over the slots that cascades while it goes revokes the subtrees of all selected entries |
| `Capabilities.RevokeAllIsUnionOfSubtrees` | kernel/src/cap_table.rs:218-226 | revoking all of an agent's capabilities equals revoking its live ones in any order, leaves it nothing live, and touches nothing outside their subtrees |
| `Capabilities.InheritedFromAncestor` | kernel/src/cap_table.rs:177-215 | an entry has the resource and expiry of every ancestor and no right the ancestor lacks |
| `Capabilities.GcIsInvisible` | kernel/src/cap_table.rs:234-242 | collection revokes exactly the expired entries; a later check succeeds after it iff it would have succeeded without it, and only Expired turns into Revoked |
| `CapTables.CascadeStep` | kernel/src/cap_table.rs:163-171 | one turn of the cascade loop: the child's own cascade, on a table already changed by earlier turns, adds exactly that child's subtree |
| `CapTables.CapTable.constructor` | kernel/src/cap_table.rs:75-82 | a new table is empty and consistent |
| `CapTables.CapTable.Grant` | kernel/src/cap_table.rs:85-113 | a grant appends one root entry at the first free slot, or reports the table full and changes nothing |
| `CapTables.CapTable.CheckHandle` | kernel/src/cap_table.rs:116-141 | the check's verdict, with its order of refusals |
| `CapTables.CapTable.Revoke` | kernel/src/cap_table.rs:144-174 | the recursive revocation inside the loop over the array it changes terminates, has exactly the cascade's effect from any forest, keeps a closed forest closed, and keeps the active count equal to the number of live entries throughout |
| `CapTables.CapTable.Delegate` | kernel/src/cap_table.rs:177-215 | a delegation checks the parent first, then appends one child entry or reports why not |
| `CapTables.CapTable.RevokeAllForAgent` | kernel/src/cap_table.rs:218-226 | the sweep in place has the effect of revoking every subtree rooted at the agent's entries |
| `CapTables.CapTable.GcExpired` | kernel/src/cap_table.rs:234-242 | the sweep in place has the effect of revoking every subtree rooted at an expired entry |
| `CapTables.CapTable.ActiveCount` | kernel/src/cap_table.rs:229-231 | the counter is the number of live entries |
| `CapabilityRuns.RunIsClosedForest` | kernel/src/cap_table.rs:85-242 | every reachable table is a closed forest within capacity |
| `CapabilityRuns.FlagIsHistory` | kernel/src/cap_table.rs:144-242 | in every reachable table an entry is marked revoked iff it or an ancestor was named for revocation during the run |
| `CapabilityRuns.CheckIsChainWalk` | kernel/src/cap_table.rs:116-141 | the constant-time check succeeds iff nobody on the whole delegation chain was named for revocation, nothing on it has expired, and every link has the required rights |
| `CapabilityRuns.Attenuation` | kernel/src/cap_table.rs:177-215 | over whole runs rights only shrink along a delegation chain; resource and expiry are the ancestor's |
| `CapabilityRuns.RunExtends` | kernel/src/cap_table.rs:85-242 | over any run no field of an issued handle changes except the revoked flag, which never resets |
| `CapabilityRuns.RevokedForEver` | kernel/src/cap_table.rs:128-130 | a handle once refused as Revoked is refused as Revoked after any further run |
| `CapabilityRuns.RefusalsHaveReasons` | kernel/src/cap_table.rs:116-141 | over runs, why a handle is refused, each reason by what the run did or the entry says: not issued; it or an ancestor named for revocation; else expired; else lacking a required right |
| `CapabilityRuns.GrantedHandle` | kernel/src/cap_table.rs:85-113 | a granted handle checks for exactly the rights named, until exactly the expiry named, and stands for the owner and resource named |
| `CapabilityRuns.DelegatedHandle` | kernel/src/cap_table.rs:177-215 | a delegated handle checks for exactly the rights passed on, whatever its parent has, until the parent expires; it is the new owner's; a delegation succeeds iff the parent checks for those rights and a slot is free, and a failed one changes nothing |
| `CapabilityRuns.SuccessesAreSlots` | kernel/src/cap_table.rs:94-112 | the number of occupied slots is the number of successful grants and delegations |
| `CapabilityRuns.HandlesAreConsecutive` | kernel/src/cap_table.rs:177-215 | the n-th success returns handle n-1, the table is full exactly after capacity-many successes, and the escalation error never occurs because the parent check comes first |
| `CapabilityRuns.GrantRightIsIdle` | kernel/src/cap_table.rs:177-215 | every delegation by way of a handle that succeeds is by way of the grant right iff the handle carries that right, or no delegation by way of it succeeds: it is revoked or expired, or the table is full |
| `CapabilityRuns.DelegationWithoutGrantRight` | kernel/src/cap_table.rs:177-215 | an agent granted only the right to read delegates it |
| `CapabilityRuns.DelegateeFallsWithAncestor` | kernel/src/cap_table.rs:143-215 | a delegated capability falls for ever with any ancestor of its parent, and with all of its new owner's capabilities |
| `CapabilityRuns.GrantAnswersToItsOwner` | kernel/src/cap_table.rs:85-113 | a granted capability falls to the wholesale revocation of its own agent and of no other |
| `Bitmaps.SetOneBit` | kernel/src/memory/page_alloc.rs:85-91 | setting the mask of one bit of a byte changes that bit and no other |
| `Bitmaps.ClearOneBit` | kernel/src/memory/page_alloc.rs:75 | clearing the mask of one bit of a byte changes that bit and no other |
| `Bitmaps.FullByte` | kernel/src/memory/page_alloc.rs:108 | 0xFF is exactly the byte without a clear bit, so skipping it skips no free frame |
| `Frames.FrameIndexOfAddress` | kernel/src/memory/page_alloc.rs:26-38 | every address inside a frame has that frame's index and lies in that frame |
| `Frames.CountIsSize` | kernel/src/memory/page_alloc.rs:168-180 | over disjoint usable regions the running frame count is the number of usable frames |
| `Frames.UsableIsWholeFrames` | kernel/src/memory/page_alloc.rs:168-180 | the usable frames are exactly the supported ones that some usable region contains whole |
| `Frames.BootFreesWholePages` | kernel/src/memory/page_alloc.rs:162-195 | boot leaves free exactly the pages between 1 MiB and 4 GiB that some usable region contains whole |
| `Frames.Conservation` | kernel/src/memory/page_alloc.rs:102-132 | over any run that frees only held frames, free and held frames partition the boot-time pool, and free frames plus the used counter is constant: the counter is its boot value plus the held frames |
| `Frames.HandsOutUsable` | kernel/src/memory/page_alloc.rs:102-121 | every frame handed out in such a run is usable, at or above 1 MiB, not held, and the lowest such; nothing is handed out only when all such frames are held |
| `Frames.NeverHandedOutTwice` | kernel/src/memory/page_alloc.rs:102-132 | no frame is handed out twice unless it was freed in between |
| `Frames.FreeGivesBack` | kernel/src/memory/page_alloc.rs:124-132 | over runs, freeing a held frame makes it free, no longer held, and the counter one less; a free undoes the allocation before it entirely |
| `Frames.FreeIsSafeIff` | kernel/src/memory/page_alloc.rs:124-132 | a free keeps free and held frames a partition of the boot-time pool iff the frame is held, already free, or unsupported |
| `Frames.FreeTakesAnyFrame` | kernel/src/memory/page_alloc.rs:124-132 | a frame that is free or unsupported is left alone; any other becomes free, and the counter goes down by one modulo 2^64 |
| `Frames.ReportedFree` | kernel/src/memory/page_alloc.rs:135-141 | the reported free count never exceeds the free frames, and is exact iff the first 256 frames were all usable or nothing is free |
| `FrameAllocators.FrameAllocator.constructor` | kernel/src/memory/page_alloc.rs:57-66 | a new allocator has no free frame |
| `FrameAllocators.FrameAllocator.MarkFree` | kernel/src/memory/page_alloc.rs:69-82 | a range becomes free, as far as it is supported, the count rises by its size, and no free frame is left outside the scanned window |
| `FrameAllocators.FrameAllocator.MarkUsed` | kernel/src/memory/page_alloc.rs:85-91 | exactly that frame stops being free |
| `FrameAllocators.FrameAllocator.IsFree` | kernel/src/memory/page_alloc.rs:94-99 | the bit test is membership in the set of free frames |
| `FrameAllocators.FrameAllocator.Alloc` | kernel/src/memory/page_alloc.rs:102-121 | the byte-skipping scan between the extreme frames is one allocation step of the pool of free frames: it takes the lowest free frame, and returns nothing only when none is free; in any state it takes the lowest free frame of the scanned window |
| `FrameAllocators.FrameAllocator.FreeFrame` | kernel/src/memory/page_alloc.rs:124-132 | one free step of the pool: a used frame becomes free and the counter drops, wrapping at zero; a free or unsupported one changes nothing |
| `FrameAllocators.FrameAllocator.CarriesOn` | kernel/src/memory/page_alloc.rs:102-132 | an allocation, or the freeing of a held frame, leads from a state reached by a run to the state reached by the run with that call at its end |
| `FrameAllocators.FrameAllocator.Stats` | kernel/src/memory/page_alloc.rs:135-141 | in every state reached from boot by freeing only held frames, the total is the number of usable frames, the used count is the held frames and the charge for the first MiB, and the free count never exceeds the free frames and equals their number iff none is free or the first MiB was all usable |
| `FrameAllocators.FrameAllocator.InitFromMemmap` | kernel/src/memory/page_alloc.rs:162-195 | boot leaves the pool every run starts from: the usable frames above 1 MiB free, 256 frames charged when anything was usable |
| `EditDistances.BestScript` | kernel/src/intent.rs:316-323 | some script of insertions, deletions and substitutions attains the distance |
| `EditDistances.NoScriptIsCheaper` | kernel/src/intent.rs:316-323 | no script costs less than the distance |
| `EditDistances.DistIsLeastCost` | kernel/src/intent.rs:305-325 | the distance is the least cost of an edit script |
| `EditDistances.Symmetric` | kernel/src/intent.rs:305-325 | the distance is symmetric |
| `EditDistances.ZeroIffEqual` | kernel/src/intent.rs:305-325 | the distance is zero iff the strings are equal |
| `EditDistances.Bounds` | kernel/src/intent.rs:305-325 | the distance lies between the difference and the maximum of the lengths |
| `EditDistances.ComposeTransforms` | kernel/src/intent.rs:305-325 | two scripts compose into one that costs no more than both |
| `EditDistances.Triangle` | kernel/src/intent.rs:305-325 | the triangle inequality |
| `Suggestions.FillRow` | kernel/src/intent.rs:317-321 | one row of the in-place table holds the distances from one more byte of the input |
| `Suggestions.EditDistance` | kernel/src/intent.rs:306-325 | the two-row computation returns the distance, except that targets of 31 bytes or more are answered with their length |
| `Suggestions.ExactUpToThirty` | kernel/src/intent.rs:310 | the code's answer is the true distance for every input iff the target has at most 30 bytes |
| `Suggestions.FindNearest` | kernel/src/intent.rs:338-348 | the scan keeps the first command at least true distance |
| `Suggestions.SuggestCommand` | kernel/src/intent.rs:328-351 | the suggestion is the first nearest command when that is one or two edits away, and none iff the input is a listed command or all are three or more away |
| `Fnv.XorIsExclusiveOr` | kernel/src/audit.rs:69 | each bit of the exclusive or is set iff the two bits in its place differ |
| `Fnv.XorLowFlips` | kernel/src/audit.rs:69 | folding a byte in flips, of the whole 64-bit hash, exactly the bits the byte sets |
| `Fnv.HashOfA` | kernel/src/audit.rs:66-74 | the hash of "a" is the published test value |
| `Fnv.UnstepUndoesStep` | kernel/src/audit.rs:69 | one hash step is undone by the prime's inverse modulo 2^64 and the same byte |
| `Fnv.StepIsInjective` | kernel/src/audit.rs:69 | one hash step is injective in the hash and in the byte |
| `Fnv.DifferenceSpreads` | kernel/src/audit.rs:69 | two different bytes folded into one hash leave a difference above the low byte, which the next byte cannot cancel |
| `Fnv.OneByteChanges` | kernel/src/audit.rs:66-74 | changing any one hashed byte changes the hash |
| `Fnv.TwoBytesChange` | kernel/src/audit.rs:66-74 | changing any two adjacent hashed bytes changes the hash |
| `AuditLogs.HashedBytesReadBack` | kernel/src/audit.rs:69-72 | tick, agent, event and previous hash stand in that order, least significant byte first, and can be read back |
| `AuditLogs.HashedBytesDetermineFields` | kernel/src/audit.rs:69-72 | the 22 hashed bytes determine tick, agent, event and previous hash |
| `AuditLogs.Fnv1a` | kernel/src/audit.rs:66-74 | the four loops compute the fold over the 22 bytes |
| `AuditLogs.RetainedIsIntact` | kernel/src/audit.rs:55-61 | every retained stretch of an untouched log is intact against the stored last hash |
| `AuditLogs.WhenTamperingPasses` | kernel/src/audit.rs:55-74 | overwriting one retained entry goes unnoticed iff it keeps the hash and, unless it is the oldest, the link |
| `AuditLogs.ByteTamperingIsDetected` | kernel/src/audit.rs:55-74 | changing one or two adjacent hashed bytes of any retained entry breaks the link held by its successor or by the last hash |
| `AuditLogs.HandleAndResultAreNotCovered` | kernel/src/audit.rs:66-74 | the handle and the result of a retained entry can change without breaking any link |
| `AuditLogs.AgreeOrCollide` | kernel/src/audit.rs:55-74 | two intact stretches of equal length ending in the same hash agree in every hashed field or exhibit a hash collision |
| `AuditLogs.AuditLog.constructor` | kernel/src/audit.rs:46-53 | a new log is empty and its last hash is the genesis value |
| `AuditLogs.AuditLog.Record` | kernel/src/audit.rs:55-61 | recording appends one linked entry to the history and the ring keeps its latest entries, through any number of wraps |
| `AuditLogs.AuditLog.TotalEvents` | kernel/src/audit.rs:63 | the total is the number of entries ever recorded |
| `Channels.PayloadIsCutPayload` | kernel/src/channel.rs:35-44 | a message carries its sender, its tick and the sent bytes cut to 256; nothing of the padding can be read back |
| `Channels.Channel.constructor` | kernel/src/channel.rs:62-68 | a new channel is an empty queue |
| `Channels.Channel.Send` | kernel/src/channel.rs:71-79 | one send step of a channel's run: the message is accepted at the end of the queue, or the full channel refuses it unchanged |
| `Channels.Channel.Recv` | kernel/src/channel.rs:82-90 | one receive step of a channel's run: the oldest message is delivered; nothing comes out only when the queue is empty |
| `Channels.Channel.MessageCount` | kernel/src/channel.rs:98-100 | the counter is the number of messages sent and not yet received |
| `Channels.ChannelRegistry.Create` | kernel/src/channel.rs:115-123 | a fresh empty channel under the next id, up to 128 of them |
| `Channels.ChannelRegistry.Get` | kernel/src/channel.rs:126-133 | the channel with that id iff one was created |
| `ChannelRuns.FirstInFirstOut` | kernel/src/channel.rs:71-90 | over any run of those steps what was accepted is what was delivered followed by what is queued, and at most 64 are queued |
| `Histories.KeptIsBeginning` | kernel/src/intent.rs:45-51 | what is kept of a line is its beginning of at most 127 bytes |
| `Histories.ListingIsNumbered` | kernel/src/intent.rs:60-75 | a listing ends with the latest line, numbers consecutively, and gives a line the same number however many are shown |
| `Histories.History.Push` | kernel/src/intent.rs:45-51 | the line, cut to 127 bytes, becomes the latest of the history |
| `Histories.History.Last` | kernel/src/intent.rs:53-58 | the latest line kept, if any |
| `Histories.History.IterRecent` | kernel/src/intent.rs:60-75 | the last lines in chronological order with their listing numbers, through any number of wraps |
| `Klogs.EntryIsWhatWasLogged` | kernel/src/klog.rs:79-92 | a reader gets the tick and the level logged, and the message's beginning of at most 96 bytes |
| `Klogs.Klog.Log` | kernel/src/klog.rs:79-92 | the message, cut to 96 bytes, becomes the latest of the log |
| `Klogs.Klog.Recent` | kernel/src/klog.rs:95-107 | the last entries, oldest first, before and after the ring has wrapped |
| `LlmFraming.WireFormat` | kernel/src/llm.rs:3-5 | the bytes of both kinds of frame on the wire |
| `LlmKernel.FrameOutcome` | kernel/src/llm.rs:52-85 | for every response and every state earlier bytes left the parser in: waiting for STX it receives the response up to its first ETX; inside a header it misses the frame's start and looks for a frame inside the response; inside a body it swallows the frame up to the first ETX |
| `LlmKernel.ResponseIsReceived` | kernel/src/llm.rs:52-85 | after noise that leaves the parser waiting, a response is received up to its first ETX and cut to 1024 bytes, whatever follows; the whole cut response arrives iff no ETX is among its first 1024 bytes |
| `LlmKernel.StrayStxLosesFrame` | kernel/src/llm.rs:57-60 | one stray STX just before a frame loses the whole frame when the response holds no STX |
| `LlmKernel.StrayStxMisleads` | kernel/src/llm.rs:57-60 | after a stray STX, a reply that itself looks like the start of a frame is read from there |
| `LlmKernel.OnlyFramedTextIsReturned` | kernel/src/llm.rs:52-85 | a completed response is the cut body of a frame among the bytes that arrived, and the bytes before that frame left the parser waiting for it |
| `LlmKernel.CutIsBeginning` | kernel/src/llm.rs:80-83 | what fits the buffer is the beginning of at most 1024 bytes |
| `LlmKernel.QueryReturnsFrame` | kernel/src/llm.rs:52-85 | the verdict a query returns: for any frame among the bytes that finds the parser waiting, its response up to the first ETX, cut to 1024 bytes, or the fixed text when that is not valid UTF-8; a timeout iff there is no such frame |
| `LlmKernel.InvalidTextSaysSo` | kernel/src/llm.rs:76-77 | the fixed text is the one in the source |
| `LlmKernel.Query` | kernel/src/llm.rs:25-91 | the query sends the framed prompt and always stops, with the parser's verdict on the bytes that arrived within the iteration budget |
| `LlmBridges.ChunksDoNotMatter` | tools/llm_bridge.py:118-151 | how received bytes are cut into chunks makes no difference |
| `LlmBridges.LlmBridge.Receive` | tools/llm_bridge.py:126-151 | the byte loop over one chunk |
| `LlmBridges.BridgeSeparates` | tools/llm_bridge.py:126-151 | from any interleaving of text and frames the bridge recovers exactly the prompts in order, passes exactly the text through, and sends exactly the framed replies |
| `LlmRoundTrip.PromptAndResponseSurvive` | kernel/src/llm.rs:3-5 | across both programs a prompt reaches the bridge intact and the framed answer reaches the kernel up to its first ETX, cut to 1024 bytes; whole but for the cut iff no ETX is among its first 1024 bytes |
| `Aliases.AliasTable.Define` | kernel/src/alias.rs:32-54 | a valid definition updates the name in the map; an invalid one, or a new name in a full table, changes nothing |
| `Aliases.AliasTable.Resolve` | kernel/src/alias.rs:57-61 | lookup by name in the map |
| `Aliases.AliasTable.Remove` | kernel/src/alias.rs:64-68 | removal from the map, reporting whether the name was there |
| `Expansion.AliasCommandIsTidy` | kernel/src/intent.rs:823-836 | the alias command only ever passes expansions that are not blank and have no trailing white space |
| `Expansion.ExpandedLine` | kernel/src/intent.rs:105-117 | an expanded line starts with the expansion's first word and ends with the caller's arguments |
| `Text.TrimTakesWhiteEnds` | kernel/src/intent.rs:80 | trimming removes the ASCII white space at both ends, all of it and nothing else |
| `Expansion.LineSplits` | kernel/src/intent.rs:105-109 | a line is its command, a gap of white space starting with a space, and its arguments, none of which are lost |
| `Expansion.RecordedUnlessHistory` | kernel/src/intent.rs:100-103 | the history takes down a line exactly when its command is not `history` |
| `Expansion.ExpandedReads` | kernel/src/intent.rs:113-117 | an expanded line reads as the whole trimmed expansion, then one space and all the arguments if there are any |
| `Expansion.AliasCarriesArguments` | kernel/src/intent.rs:105-123 | every line under an alias is rewritten to just that |
| `Expansion.AliasIsDispatched` | kernel/src/intent.rs:105-123 | when the expansion's own command is no alias, that is the line dispatched |
| `Expansion.BlankDoesNothing` | kernel/src/intent.rs:79-83 | a line of white space does nothing and leaves the history alone |
| `Expansion.ShellIsLawful` | kernel/src/intent.rs:100-123 | under any table the alias command can build, which word a line leads to depends on its first word alone, arguments are only ever put in front of those a line has, a line without arguments is one word, and the history keeps such a line as it is unless it is `history` |
| `Expansion.EveryTableHasRules` | kernel/src/intent.rs:100-123 | every alias table has rewriting rules that the theorems about lines apply to |
| `Expansion.PerformLine` | kernel/src/intent.rs:100-123 | one activation for a line other than `!!`: recorded or not, dispatched, or the expanded line executed with one nested call fewer |
| `Rewriting.RepeatAlone` | kernel/src/intent.rs:85-98 | `!!` is refused on an empty history and otherwise executes the last history line with one nested call fewer; a last line that itself reads as `!!` exhausts every stack |
| `Chains.ChainIsDispatched` | kernel/src/intent.rs:105-123 | a chain of n expansions that ends in a line other than `!!` under no alias is dispatched after exactly n nested calls, with the caller's arguments at the end and every recorded line of the chain in the history |
| `Chains.LongChainNeverStops` | kernel/src/intent.rs:105-123 | a chain that expands more lines than there are aliases never stops |
| `Chains.AcyclicChainsStop` | kernel/src/intent.rs:105-123 | in an acyclic alias table every chain stops within as many expansions as there are aliases |
| `Chains.ChainToRepeat` | kernel/src/intent.rs:85-123 | a chain of one or more expansions that ends in the bare `!!` exhausts every stack, except the line `history` on its own, which repeats the line before it |
| `Expansion.EveryLineIsDecided` | kernel/src/intent.rs:79-123 | the outcome of every trimmed line under every table the alias command can build: overflow if its chain expands more lines than there are aliases, or ends in the bare `!!` after at least one expansion other than that of `history` alone; else, with stack enough for the chain, the line it ends in is dispatched with the caller's arguments, or the history is repeated |
| `Expansion.AliasForRepeat` | kernel/src/intent.rs:85-123 | an alias for `!!`: alone it exhausts every stack, unless it is named `history`; with arguments it is dispatched as a command `!!` |
| `Expansion.HistoryNeverHoldsRepeat` | kernel/src/intent.rs:86-103 | execution only appends to the history and never records the line `!!` itself |
| `Expansion.CutLineReadsAsRepeat` | kernel/src/intent.rs:45-51 | what the history keeps of a line reads as `!!` iff the line is longer than 127 bytes and starts with `!!` followed by nothing but white space up to there |
| `Shells.Shell.Execute` | kernel/src/intent.rs:79-98 | the recursion over the mutable history and alias table has the outcome and leaves the history of its specification |
| `Shells.Shell.ExecuteCommand` | kernel/src/intent.rs:100-123 | the same for a line that is not `!!`: record, look up, re-execute or dispatch |
| `Shells.Shell.CmdAlias` | kernel/src/intent.rs:823-836 | the alias command defines its first word as the rest of its arguments, and only builds tables the chain theorems speak of |
| `Agents.RetainedMembers` | kernel/src/agent.rs:253-255 | collection keeps exactly the agents that are not terminated |
| `Agents.RetainedIsOrdered` | kernel/src/agent.rs:253-255 | collection keeps ids unique and rising |
| `AgentTables.AgentTable.Spawn` | kernel/src/agent.rs:194-211 | a new agent under the next id, or a refusal at 256 agents that changes nothing |
| `AgentTables.AgentTable.Kill` | kernel/src/agent.rs:224-232 | exactly that agent is terminated and all it owns revoked; an unknown id changes nothing |
| `AgentTables.AgentTable.ActiveCount` | kernel/src/agent.rs:235-240 | the number of agents collection would keep |
| `AgentTables.AgentTable.Gc` | kernel/src/agent.rs:253-255 | the table becomes the agents that are not terminated, in order |
| `AgentTables.AgentTable.EnforceTimeouts` | kernel/src/agent.rs:258-269 | killing the overdue agents one by one terminates exactly them and revokes exactly what descends from their capabilities |
| `Kernels.Kernel.ResourceRead` | kernel/src/syscall.rs:79-113 | the read call over all tables |
| `Kernels.Kernel.ResourceWrite` | kernel/src/syscall.rs:116-160 | the write call over all tables, with its budget step |
| `Kernels.Kernel.CapGrant` | kernel/src/syscall.rs:163-197 | the grant call over all tables |
| `Kernels.Kernel.CapRevoke` | kernel/src/syscall.rs:200-235 | the revoke call over all tables |
| `Kernels.Kernel.EquipAgent` | kernel/src/wasm_runtime.rs:55-94 | the grants at the start of an execution |
| `Kernels.Kernel.RunAgent` | kernel/src/wasm_runtime.rs:305-329 | activation, run and clean-up, with the early exits that skip the clean-up |
| `Kernels.Kernel.ExecuteAgent` | kernel/src/wasm_runtime.rs:36-330 | one whole execution over all tables |
| `MachineRuns.RunIsSane` | kernel/src/syscall.rs:79-235 | over any run of calls the forest stays closed, agent ids stay unique and rising, the audit trail stays chained, and no issued handle changes except to be revoked |
| `MachineRuns.KillIsExact` | kernel/src/agent.rs:224-232 | a kill leaves nothing live that the agent owned or that was delegated from it, and touches nothing else |
| `MachineRuns.RunFromBootIsSane` | kernel/src/syscall.rs:79-235 | all of that holds of every state the kernel can reach from boot |
| `MachineRuns.KilledAgentOwnsOnlyGifts` | kernel/src/agent.rs:224-232 | after a kill and any further run, the agent owns something live iff a later grant to it, delegation to it or execution under its id gave it something that has not been revoked since |
| `MachineRuns.OnlyGiftsAdd` | kernel/src/cap_table.rs:85-215 | only a grant to an agent, a delegation to it or its own execution adds an entry it owns |
| `MachineRuns.KilledHandlesStayDead` | kernel/src/agent.rs:224-232 | after a kill, no later run makes a handle descending from the agent's acceptable again |
| `MachineRuns.TimeoutsAreExact` | kernel/src/agent.rs:258-269 | a timeout sweep terminates exactly the overdue agents and revokes exactly the subtrees of their capabilities |
| `MachineRuns.KillNobody` | kernel/src/agent.rs:224-225 | killing an unknown agent is refused and changes nothing |
| `MachineRuns.SpawnAddsFreshAgent` | kernel/src/agent.rs:126-211 | spawning fails iff there are 256 agents; else it adds one initializing agent with the id, cut name, parent, budget and lifetime asked for and no capabilities |
| `MachineRuns.ExecutionOutcome` | kernel/src/wasm_runtime.rs:36-330 | an execution answers Ok iff its agent could be spawned and its code ran, and then the agent is terminated; otherwise the agent, with the default budget and a lifetime of 60,000 ticks, stays active or initializing according to what failed |
| `MachineRuns.SpawnedAgentTimesOut` | kernel/src/agent.rs:159-161 | a spawned agent is terminated by a sweep iff it has a lifetime and that has run out |
| `MachineRuns.ExecutionRestoresIff` | kernel/src/wasm_runtime.rs:47-329 | an execution restores the set of live capabilities iff it could not spawn, or reached the clean-up for an id that owned nothing live, or failed in the engine with the table full |
| `MachineRuns.EquipGivesOutfit` | kernel/src/wasm_runtime.rs:55-94 | an agent gets exactly the capabilities named for it, in order and each with the one right named, as far as the table has room; those that no longer fit are dropped |
| `MachineRuns.WriteSucceedsIff` | kernel/src/syscall.rs:116-160 | a write goes through iff the handle is live, unexpired and carries the right, and the agent, if known, has used fewer operations than its limit; it is refused for the budget iff only the latter fails |
| `MachineRuns.WritesUntilLimit` | kernel/src/agent.rs:77-94 | over any run, the next write by a usable handle goes through iff the operations used at the start and the successful writes since are below the limit |
| `MachineRuns.IoBudgetIsExact` | kernel/src/agent.rs:77-94 | over any run an agent present at both ends has used as many I/O operations as it made successful writes, and never exceeds its limit |
| `MachineRuns.AccessIsRecorded` | kernel/src/syscall.rs:79-160 | a read and a write leave exactly one audit record that matches the outcome; a refused write charges nothing |
| `MachineRuns.AccessIsByOwnerIff` | kernel/src/syscall.rs:79-160 | every read an agent can make is by way of a handle of its own iff nobody else owns a live unexpired one with the read right; likewise for writes, unless its I/O budget stops them all |
| `MachineRuns.RunLeavesTrail` | kernel/src/syscall.rs:79-235 | the trail after any run is the old one followed by the records its calls had to leave, in order and with every field as the outcomes demand |
| `MachineRuns.GrantIsRecorded` | kernel/src/syscall.rs:163-197 | a grant leaves exactly one audit record, succeeds iff a slot is free, and the handle then checks for exactly the rights named, until its timeout |
| `MachineRuns.RevokeCallIsExact` | kernel/src/syscall.rs:200-235 | the revoke call succeeds iff the caller owns a live unexpired handle, and is refused as NotOwner iff somebody else does; a failed one changes nothing, a successful one changes only the handle and its descendants and leaves one record |
| `HostCalls.NegativeIsOutOfBounds` | kernel/src/wasm_runtime.rs:136-189 | a negative address or length argument becomes a word no memory reaches, so an access is in bounds iff the signed address and its end are |
| `HostCalls.BytesArrive` | kernel/src/wasm_runtime.rs:136-189 | the bytes and the sender one agent's send reads are what another's receive writes, cut to 256 bytes and to the room offered |
| `HostCalls.ChanSend` | kernel/src/wasm_runtime.rs:136-161 | a send goes through iff the capability checks for write, the memory can be read, and the channel exists with room; otherwise the queue is unchanged |
| `HostCalls.ChanRecv` | kernel/src/wasm_runtime.rs:166-189 | a receive takes the oldest message iff the capability checks for read; a bad address loses the message and reports -1 |
| `CapTables.CapTable.FindFreeSlot` | kernel/src/cap_table.rs:94-98 | the first free slot is the one after the occupied prefix, or there is none |
| `CapTables.CapTable.Occupy` | kernel/src/cap_table.rs:100-112 | filling that slot appends a live entry and keeps the forest, its closure and the count |
| `CapTables.CapTable.MarkRevoked` | kernel/src/cap_table.rs:157-160 | marking one live entry keeps the count exact, so the saturating subtraction never saturates, even in the middle of a cascade |
| `FrameAllocators.FrameAllocator.MarkOneFree` | kernel/src/memory/page_alloc.rs:72-79 | one frame becomes free, is counted, and stays inside the scanned window |
| `FrameAllocators.FrameAllocator.ClearBit` | kernel/src/memory/page_alloc.rs:127-129 | exactly that frame becomes free |
| `FrameAllocators.FrameAllocator.AdoptRegions` | kernel/src/memory/page_alloc.rs:168-180 | the whole frames of the usable regions, and no others, become free and are counted |
| `FrameAllocators.FrameAllocator.ReserveLow` | kernel/src/memory/page_alloc.rs:183-188 | the first 256 frames stop being free and are charged when anything was usable |
| `Suggestions.CopyRow` | kernel/src/intent.rs:322 | the finished row becomes the previous row |
| `LlmKernel.OnByte` | kernel/src/llm.rs:52-85 | one byte on the fixed buffer and fill position acts as the parser does on its text |
| `LlmKernel.Poll` | kernel/src/llm.rs:47-85 | one turn of the query loop carries the parser over what that poll delivered |
| `Aliases.AliasTable.Find` | kernel/src/alias.rs:58-59 | the search by name finds the entry the map knows, if any |
| `AgentTables.AgentTable.Find` | kernel/src/agent.rs:214-221 | the search by id finds the agent iff it is there |
| `Kernels.Kernel.Charge` | kernel/src/syscall.rs:130-139 | an agent that is there and has operations left is charged one; one that has none is refused; an absent one is not charged |
| `Kernels.Kernel.AddCapability` | kernel/src/syscall.rs:178-182 | the agent's handle list grows by the new handle, nobody else's does |
| `Kernels.Kernel.Place` | kernel/src/cap_table.rs:85-113 | the table's grant as a step of the whole machine |
| `Kernels.Kernel.NoteGrant` | kernel/src/syscall.rs:178-187 | after a grant the agent's own list grows and the trail gets its record |
| `Kernels.Kernel.GrantDirect` | kernel/src/wasm_runtime.rs:56-59 | a grant outside the system call leaves no audit record |
| `Kernels.Kernel.GrantForChannel` | kernel/src/wasm_runtime.rs:62-84 | a channel capability is granted only when a channel was asked for |
| `Kernels.Kernel.Activate` | kernel/src/wasm_runtime.rs:309-312 | the agent becomes active, nobody else changes |
| `Kernels.Kernel.SpawnAgent` | kernel/src/agent.rs:194-211 | spawning over all tables |
| `Kernels.Kernel.KillAgent` | kernel/src/agent.rs:224-232 | killing over all tables |
| `Kernels.Kernel.EnforceTimeouts` | kernel/src/agent.rs:258-269 | the timeout sweep over all tables |

## Left out

- Hardware, boot and display: port and MSR access, interrupts, paging, framebuffer, chat user interface, printing.
- The WebAssembly engine: an agent's code is its outcome (load failure, instantiation failure, missing start function, end or trap) and, for the two channel calls, arbitrary arguments and memory.  The log, file and environment host calls would only add the same capability gate again.
- Locks and atomics: each locked operation is one step; the tick is an input of every call.
- Overflow of ids, ticks and counters, except the 64-bit hash and the frame counter's decrement, where wrapping is explicit.
- `Shells.Shell.Execute`: the kernel's stack is a number of nested calls passed in, and running out of it is an outcome; what a dispatched command then does is not modelled.
- `Expansion.EveryLineIsDecided`: stated for tables as the alias command makes them (`AliasCommandIsTidy`), which is the only code that defines an alias; an expansion with trailing tabs would change its first word when arguments follow.
- Characters outside ASCII: a `char` is one byte, white space is the ASCII set, and a history slot is its valid prefix rather than a fixed buffer with stale bytes behind it.
- `LlmKernel.Query`: whether bytes are valid UTF-8 is a parameter, and so is the iteration budget, which the source fixes at 5,000,000.
- `LlmBridges.LlmBridge.Receive`: the model behind a prompt is an arbitrary function of bytes; sockets, keyboard relay and decoding of invalid text are not modelled.
- `CapTables.CapTable.Grant`: capability ids are a counter of the table; in the source the same counter also serves typed capability tokens, which are not modelled.
- Rights are the set of the six named flags; unnamed bits of the 32-bit word are not represented.
- The fuzzy keyword tables, the environment store, the virtual file system and the keyboard ring: maps and word lists without a deep invariant.
- Memory and compute budgets: the kernel never charges them, so only the I/O budget has a property to prove.
