# Verified model of pydump

pydump captures the object graph of a running CPython process into a PyHeap v1 artifact and analyzes it. A native
Agent inside the process streams its objects to a Collector over a socket; the Collector walks the graph and writes
the artifact; an analyzer, written in Python with a Go port, reads artifacts and computes retained sizes. This
project models those parts in Dafny and proves what they promise.

    dafny verify dfyconfig.toml

## What is modelled

**Retained sizes** (`RetainedHeap`). Deleting an object or a thread sets off a reference-counting cascade. The
calculator is a class with the original's fields and loops: a front re-sorted every round, a scan from its end with
an early break while views change, stale entries, a table of precomputed subtree sizes that is read and overwritten
at the same time. It is proved against a specification that knows no order of work, the least set closed under the
reference-counting rule (`CascadeSpec`), for every iteration order and every resolution of sort ties.
`SubtreeSpec` and `SubtreeSearch` show that the search for tree-shaped regions terminates on every graph and stops
only when it is complete. `RetainedStructure` shows how retained sets lie in the graph: dominated, nested, disjoint,
no larger than the heap. `RetainedMeaning` compares the result with its documentation, `RetainedExamples` works a small
heap out by hand.

**Go port** (`GoGraph`, `GoRetained`, `GoRefinement`, `GoReader`, `GoAnalysis`). Interned indexes, compressed rows and
their transpose built by cursor filling, 32- and 64-bit arithmetic written out. For every byte string, the Go program
accepts what the Python program accepts and computes the same sizes of objects, and of threads where their sources agree.

**Artifact** (`Artifact`, `HeapReader`, `ArtifactLocality`, `HeapWriter`, `ArtifactEncoding`, `ArtifactRoundTrip`).
The format as parsing functions over bytes and an offset; an imperative reader that computes them; a streaming writer
over a seekable file that fills in the object count afterwards. Written artifacts read back, no accepted artifact is a
prefix of another. `ReadBack` says value by value what reading back means; `FileFormat` spells the format out byte by byte,
with one whole artifact; `Compression` covers the tables that the format allows and this writer leaves empty.

**Capture protocol** (`Protocol`, `Framing`, `Handshake`, `ObjectStream`, `AgentBuffers`, `AgentSession`,
`CollectorModel`, `Collector`, `Session`, `SessionRuns`, `AgentMachine`, `SessionBytes`, `SessionArtifact`,
`SessionSucceeds`, `WireFormat`). Wire frames and bulk frames
with their codecs, a framed socket over arbitrary short reads, the Agent's two fixed buffers in their arrays, its
request loop, and the Collector's graph walk with its scheduled set and pending stack. The Agent's program is proved
to do what the stream it hears settles, frame by frame (`AgentSession.Agent.SessionMain`). `Collector.Capture` is
proved to be a run of a machine (`CollectorModel`) that takes one message at a time; what that machine writes is
exactly what is reachable, whatever the peer sends. `Session` joins it to the Agent as a second machine: every
interleaving is safe, can go on, and ends. `AgentMachine` shows that this second machine sends what the Agent's
program sends, frame for frame; `SessionBytes` joins the two programs themselves by the bytes they write.
`SessionArtifact` says what a reader makes of the artifact in terms of the process, and `SessionSucceeds` that a session
of a process that fits the format cannot fail. `WireFormat` spells the protocol out byte by byte.

**Starting the Agent** (`AgentFlags`, `AgentProgress`, `NonceHex`). Start and schedule calls, pending-call callbacks and
session threads as interleaved atomic steps over two flags and one buffer: what they never do, what comes of each, and that they get
through when the flags are free.

## Where code and documentation, or two programs, differ

- The docstring of the calculator (analyzer/python/src/pydump_analyzer/retained.py:68) promises the bytes made unreachable
  by deleting an object or a thread root. Roots are taken to be the locals of all threads and the objects that nothing
  references. The cascade of an object ignores what threads hold, so it counts something that is still reachable if and
  only if a thread has a local that lives by the object alone; and it counts references, so it misses something if and only
  if a cycle lies upstream of what becomes unreachable (`RetainedMeaning.RetainedMeansUnreachable`). For a thread, the first
  condition asks for locals of threads elsewhere (`RetainedMeaning.ThreadRetainedMeansUnreachable`), since the code asks who
  else holds an address only of the thread's own locals, and does not count a copy of the thread. Concrete heaps show the
  differences.
- The Agent reads the acknowledgement into five bytes without comparing its announced length with that
  (capture/agent/agent.c:239, 594-597). It writes past them exactly when the first frame announces more, within the
  protocol's limit, and more than five bytes follow its header (`AgentSession.OverrunsIff`). The session then has no
  defined end (`AgentSession.Agent.SessionMain`, `AgentSession.LongAcknowledgementOverruns`); this Collector sends no such
  frame (`SessionBytes.CaptureNeverOverruns`, `SessionRuns.FramesFitTheirBuffers`).
- Python fails on a local address that nothing knows, Go gives it an index.
- Python leaves out the removed thread by value, Go by index. Go therefore finds nothing for a thread that has a copy;
  the sizes agree if and only if such threads retain nothing anyway (`GoRefinement.ThreadsByIndex`,
  `GoRefinement.EqualThreadsDiffer`).
- When a header gives sets and tuples one type address, Python makes tuples of such objects and Go sets
  (`GoReader.SameUnlessAmbiguous`, `GoAnalysis.SetsAndTuplesDiffer`).

## Assumptions

- A socket is a pair of byte streams; `incoming` is all that the peer will ever send. Reads return any positive number
  of the bytes asked for. Sends and allocations do not fail, except in `AgentFlags`, where they may.
- Strings are byte sequences. Lengths and cuts count bytes.
- The stopped process is a list of roots, the addresses of the well-known types, and an object at every address
  (`AgentSession.Process`). That an object's content kind follows from its type, as CPython's exact type checks make it, is
  assumed only in `SessionArtifact` and `SessionSucceeds` (`SessionArtifact.TypesTellKinds`).
- The creation time in the header is a parameter.
- A request batch has at least one address and fits a frame (`Session.Fair`); with a larger batch the machine fails with
  a refused frame, as the code does.

## Model

| member | source | states |
|---|---|---|
| `CascadeSpec.LeastIsLeast` | analyzer/python/src/pydump_analyzer/retained.py:131-186 | the specification of a cascade: what it deletes is contained in every set closed under the reference-counting rule |
| `CascadeSpec.LeastClosed` | analyzer/python/src/pydump_analyzer/retained.py:131-186 | and is itself closed under the rule |
| `CascadeSpec.LeastReady` | analyzer/python/src/pydump_analyzer/retained.py:149-186 | an address is deleted exactly when the rule asks for it: a start address once its initial count is used up by deleted sources, any other once it has inbound references and all are deleted |
| `CascadeSpec.RetainedRule` | analyzer/python/src/pydump_analyzer/retained.py:128-129 | the rule for the cascade of one object, in both directions |
| `CascadeSpec.RetainedLeast` | analyzer/python/src/pydump_analyzer/retained.py:128-129 | the cascade of one object is contained in any set that holds the object and is closed under that rule |
| `RetainedHeap.InboundReferences.constructor` | analyzer/python/src/pydump_analyzer/retained.py:54-64 | every known address is mapped to exactly the objects that reference it, whatever the iteration order |
| `RetainedHeap.RetainedHeapCalculator.DecrementInbound` | analyzer/python/src/pydump_analyzer/retained.py:181-186 | each released address has one inbound count less, counted from its full number when first seen; all other views stay |
| `CascadeInvariant.DeletableIsReady` | analyzer/python/src/pydump_analyzer/retained.py:161-166 | an address of view 0 or less may be deleted: the rule demands it |
| `CascadeInvariant.ExpansionEffect` | analyzer/python/src/pydump_analyzer/retained.py:175-186 | releasing the references of a deleted object keeps every view exact |
| `CascadeInvariant.DeleteExpanded` | analyzer/python/src/pydump_analyzer/retained.py:165-178 | deleting an object, views changing while the sorted suffix is scanned, keeps the cascade's invariant, stale entries of the front included |
| `CascadeInvariant.DeleteUnexpanded` | analyzer/python/src/pydump_analyzer/retained.py:169-174 | so does deleting a subtree root or a dangling address, which are not expanded |
| `CascadeInvariant.StuckMeansDone` | analyzer/python/src/pydump_analyzer/retained.py:143-146 | when nothing undeleted in the front has a view of 0 or less, exactly what the rule asks for has been deleted |
| `CascadeOutcome.AccountOne` | analyzer/python/src/pydump_analyzer/retained.py:175 | a deleted object adds its size once |
| `CascadeOutcome.AccountSubtree` | analyzer/python/src/pydump_analyzer/retained.py:169-171 | a deleted subtree root stands for a region none of which was counted before |
| `CascadeOutcome.StepSubtree` | analyzer/python/src/pydump_analyzer/retained.py:165-171 | adding the stored size of a subtree root equals counting everything below it |
| `CascadeOutcome.AccountedIsLeast` | analyzer/python/src/pydump_analyzer/retained.py:140-147 | at the end of a cascade, with or without the shortcut, exactly the least set has been counted |
| `CascadeOutcome.ResortKeepsInv` | analyzer/python/src/pydump_analyzer/retained.py:141 | any permutation of the front is as good as any other: sort ties do not matter |
| `ViewSort.Sort` | analyzer/python/src/pydump_analyzer/retained.py:141 | the front is permuted into descending order of view; nothing is fixed for equal views |
| `RetainedHeap.RetainedHeapCalculator.DeleteUnreferenced` | analyzer/python/src/pydump_analyzer/retained.py:149-179 | one pass from the end of the sorted front with its early break: it adds exactly the size of what it deletes, deletes nothing undeservedly, and reports no deletion only when none is possible |
| `RetainedHeap.RetainedHeapCalculator.RetainedFrom` | analyzer/python/src/pydump_analyzer/retained.py:131-147 | the cascade terminates and returns the sum of sizes over the least set, with and without the subtree shortcut |
| `RetainedHeap.RetainedHeapCalculator.RetainedForObject` | analyzer/python/src/pydump_analyzer/retained.py:128-129 | the shortcut preserves meaning: an object's size is the sum over its least set |
| `SubtreeSpec.StrictRootsLeast` | analyzer/python/src/pydump_analyzer/retained.py:88-112 | strict subtree roots: the least set of objects with at most one inbound source whose referents are all in the set |
| `SubtreeSpec.StrictRootsClosed` | analyzer/python/src/pydump_analyzer/retained.py:88-112 | and that set is closed under its rule |
| `SubtreeSpec.SubtreeRetainsReach` | analyzer/python/src/pydump_analyzer/retained.py:169-171 | deleting a subtree root deletes exactly everything reachable from it |
| `SubtreeSpec.ChildRegionsAddUp` | analyzer/python/src/pydump_analyzer/retained.py:106-108 | the regions below the referents of a root do not overlap, so that stored sizes add up |
| `SubtreeSpec.SubtreeSize` | analyzer/python/src/pydump_analyzer/retained.py:106-108 | the recurrence for a stored size is the sum over everything reachable from the root |
| `SubtreeSpec.NoEndlessDescent` | analyzer/python/src/pydump_analyzer/retained.py:88-112 | no non-empty set of roots can have a referent of each member inside the set |
| `SubtreeSearch.RoundFound` | analyzer/python/src/pydump_analyzer/retained.py:105-109 | one candidate accepted: the round's invariant is kept |
| `SubtreeSearch.UnchangedFrontFoundNothing` | analyzer/python/src/pydump_analyzer/retained.py:110-111 | a round that leaves the front as it was found no root |
| `SubtreeSearch.UnchangedFrontIsComplete` | analyzer/python/src/pydump_analyzer/retained.py:110-111 | so the stop test never stops too early: all strict subtree roots have then been found |
| `SubtreeSearch.RoundProgress` | analyzer/python/src/pydump_analyzer/retained.py:96-112 | every other round makes progress in a well-founded measure, on every graph, cycles included |
| `SubtreeSearch.RestoreSize` | analyzer/python/src/pydump_analyzer/retained.py:82-83 | overwriting a stored root size with the retained size of that root, as the main loop does, changes nothing |
| `RetainedHeap.RetainedHeapCalculator.CollectLeaves` | analyzer/python/src/pydump_analyzer/retained.py:89-94 | the leaves with fewer than two sources are roots, and their sources are the first candidates |
| `RetainedHeap.RetainedHeapCalculator.AddSubtree` | analyzer/python/src/pydump_analyzer/retained.py:105-108 | a candidate whose referents are all roots becomes a root with the size of its region |
| `RetainedHeap.RetainedHeapCalculator.FindStrictSubtrees` | analyzer/python/src/pydump_analyzer/retained.py:88-112 | the search terminates with exactly the strict subtree roots |
| `HeapModel.GatherLocals` | analyzer/python/src/pydump_analyzer/model.py:55-60 | an address is gathered exactly when some frame of the thread, whichever it is, has a local with it under some name |
| `ThreadSpec.OtherHoldersZero` | analyzer/python/src/pydump_analyzer/retained.py:119-123 | the count of other holders is 0 exactly when no other thread holds the address |
| `ThreadSpec.ThreadRule` | analyzer/python/src/pydump_analyzer/retained.py:114-126 | a thread's local goes once no other thread holds it and its inbound references are gone; any other address once it has inbound references, all gone |
| `ThreadSpec.ThreadRuleByFrames` | analyzer/python/src/pydump_analyzer/retained.py:114-126 | the same with what each thread holds spelt out by frames and names |
| `ThreadSpec.ThreadsRetainDisjoint` | analyzer/python/src/pydump_analyzer/retained.py:114-126 | two different threads never retain the same address |
| `ThreadSpec.ThreadSizesLast` | analyzer/python/src/pydump_analyzer/retained.py:124-126 | under a name stands the size of the last thread of that name |
| `RetainedHeap.RetainedHeapCalculator.ThreadView` | analyzer/python/src/pydump_analyzer/retained.py:116-123 | a thread's initial counts, or the unknown local that Python fails on |
| `RetainedHeap.RetainedHeapCalculator.CalculateThreads` | analyzer/python/src/pydump_analyzer/retained.py:114-126 | every thread's retained size; it fails exactly when some local is neither an object nor a referent |
| `RetainedHeap.RetainedHeapCalculator.CalculateObjects` | analyzer/python/src/pydump_analyzer/retained.py:82-83 | every object's retained size, although the loop overwrites the table its cascades read |
| `RetainedHeap.RetainedHeapCalculator.Calculate` | analyzer/python/src/pydump_analyzer/retained.py:78-86 | the whole calculation, its refusal of a second run, and its failure on unknown locals |
| `RetainedExamples.ExampleSizes` | analyzer/python/src/pydump_analyzer/retained.py:68 | a heap of five objects worked out by hand: what each object retains, and what a thread of two frames retains through both |
| `RetainedStructure.RetainedIsEnteredThroughOwner` | analyzer/python/src/pydump_analyzer/retained.py:68 | every walk into a retained set from outside passes through its owner, on every graph |
| `RetainedStructure.RetainedMeansDominated` | analyzer/python/src/pydump_analyzer/retained.py:131-186 | threads left aside, an object retains only what unreferenced nodes reach through it alone, and all of that if and only if no cycle lies in there |
| `RetainedStructure.RetainedOnAcyclicGraph` | analyzer/python/src/pydump_analyzer/retained.py:131-186 | on graphs without cycles, retaining is dominating |
| `RetainedStructure.RetainedIsAcyclic` | analyzer/python/src/pydump_analyzer/retained.py:131-186 | a retained set holds no cycle that avoids its owner |
| `RetainedStructure.AcyclicMeansNoCycle` | analyzer/python/src/pydump_analyzer/retained.py:131-186 | acyclic is: no walk returns to where it began |
| `RetainedStructure.CycleSurvives` | analyzer/python/src/pydump_analyzer/retained.py:131-186 | a graph on which retaining is not dominating: two objects that reference each other stay alive |
| `RetainedStructure.RetainedIsLaminar` | analyzer/python/src/pydump_analyzer/retained.py:82-83 | two retained sets are nested or disjoint, and a nested one is not larger in bytes |
| `RetainedStructure.ApartObjectsFitTheHeap` | analyzer/python/src/pydump_analyzer/retained.py:263-264 | objects none of which retains another retain together no more than the heap |
| `RetainedStructure.ThreadSizesFitTheHeap` | analyzer/python/src/pydump_analyzer/retained.py:263-264 | the retained sizes of all threads add up to no more than the heap |
| `RetainedMeaning.RetainedByAncestry` | analyzer/python/src/pydump_analyzer/retained.py:128-129 | a retained set described without any cascade: what is upstream once the owner is gone has no cycle and nothing that had been unreferenced |
| `RetainedMeaning.ReleaseMeaning` | analyzer/python/src/pydump_analyzer/retained.py:131-186 | any cascade against reachability: it takes nothing that is still reached if and only if it takes no root, and misses nothing if and only if no cycle lies upstream of what is lost |
| `RetainedMeaning.RetainedMeansUnreachable` | analyzer/python/src/pydump_analyzer/retained.py:68 | the documented meaning for objects: nothing too much if and only if no thread has a local that lives by the object alone, nothing too little if and only if no cycle lies upstream of what becomes unreachable |
| `RetainedMeaning.RetainedOnAcyclicHeap` | analyzer/python/src/pydump_analyzer/retained.py:68 | without cycles, only what threads hold can make an object's retained size differ from its documentation |
| `RetainedMeaning.HeldReferentIsCounted` | analyzer/python/src/pydump_analyzer/retained.py:128-129 | an acyclic heap where it differs: a thread still holds the referent that is counted |
| `RetainedMeaning.LostCycleIsMissed` | analyzer/python/src/pydump_analyzer/retained.py:128-129 | a heap where it differs the other way: a cycle becomes unreachable and is not counted |
| `RetainedMeaning.DeadCycleDoesNotMatter` | analyzer/python/src/pydump_analyzer/retained.py:128-129 | a cycle that was unreachable before does not disturb the sizes of other objects |
| `RetainedMeaning.ThreadRetainedByAncestry` | analyzer/python/src/pydump_analyzer/retained.py:114-126 | a thread's retained set without any cascade: what lives by its locals alone |
| `RetainedMeaning.ThreadRetainedMeansUnreachable` | analyzer/python/src/pydump_analyzer/retained.py:68 | the documented meaning for threads, each by itself: nothing too much if and only if no thread elsewhere, a copy included, holds what lives by this thread's locals alone; nothing too little if and only if no cycle lies upstream of what becomes unreachable |
| `RetainedMeaning.OtherThreadsReferentIsCounted` | analyzer/python/src/pydump_analyzer/retained.py:119-123 | threads for which it differs: the second thread holds what the first thread's local references |
| `RetainedMeaning.CopiedThreadsLocalIsCounted` | analyzer/python/src/pydump_analyzer/retained.py:119-123 | equal threads for which it differs: the copy still holds what is counted |
| `GoGraph.SourcesExact` | analyzer/go/internal/analysis/graph.go:71-78 | the inbound list of a node: exactly its sources, each once, ascending |
| `GoGraph.Intern` | analyzer/go/internal/analysis/graph.go:21-51 | addresses are interned one to one onto the first indexes, object i at index i; it fails exactly when indexes run out |
| `GoGraph.ReferentOffsets` | analyzer/go/internal/analysis/graph.go:53-57 | row offsets are prefix sums of the row lengths and do not wrap |
| `GoGraph.FillReferents` | analyzer/go/internal/analysis/graph.go:57-66 | the flat referent array and the inbound counts, none of which wraps in 32 bits |
| `GoGraph.InboundOffsets` | analyzer/go/internal/analysis/graph.go:67-71 | inbound offsets leave room for exactly the sources of each node |
| `GoGraph.FillStep` | analyzer/go/internal/analysis/graph.go:71-78 | one cursor step writes the next free slot of its own node and no other |
| `GoGraph.FillInbound` | analyzer/go/internal/analysis/graph.go:71-78 | cursor filling writes the exact transpose, every slot once, no cursor crossing into the next node |
| `GoGraph.BuildGraph` | analyzer/go/internal/analysis/graph.go:20-87 | the graph's rows are the referents, its inbound lists their transpose; it fails exactly when indexes run out |
| `GraphRename.LeastRenamed` | analyzer/go/internal/analysis/retained.go:135-157 | renaming addresses one to one renames the cascade |
| `GraphRename.SumRenamed` | analyzer/go/internal/analysis/retained.go:159-199 | and keeps its sum of sizes |
| `GoRetained.SizesFit` | analyzer/go/internal/analysis/retained.go:159-199 | no sum of 32-bit object sizes reaches 2^64 |
| `GoRetained.EqualNodeSets` | analyzer/go/internal/analysis/retained.go:201-211 | equal size and nothing missing on one side is set equality |
| `GoRetained.RetainedCalculator.DeleteUnreferenced` | analyzer/go/internal/analysis/retained.go:159-199 | one pass of the Go cascade, with spliced fronts and 64-bit sums that do not wrap |
| `GoRetained.RetainedCalculator.RetainedFrom` | analyzer/go/internal/analysis/retained.go:135-157 | the Go cascade returns the sum over the least set |
| `GoRetained.RetainedCalculator.FindStrictSubtrees` | analyzer/go/internal/analysis/retained.go:59-103 | the Go search records exactly the strict subtree roots |
| `GoRetained.RetainedCalculator.CalculateThreads` | analyzer/go/internal/analysis/retained.go:109-133 | every thread's size, other holders counted by index |
| `GoRetained.RetainedCalculator.CalculateObjects` | analyzer/go/internal/analysis/retained.go:39-57 | every object's size, into the table its cascades read |
| `GoRefinement.SameRetained` | analyzer/go/internal/analysis/retained.go:135-157 | a cascade over indexes retains as many bytes as the cascade over addresses |
| `GoRefinement.SameHoldersIffNoCopy` | analyzer/go/internal/analysis/retained.go:120-127 | skipping the removed thread by index and by value agree exactly when no other thread equals it |
| `GoRefinement.ThreadAtIndex` | analyzer/go/internal/analysis/retained.go:109-133 | Go finds for a thread what Python finds, and nothing at all for a thread that has a copy |
| `GoRefinement.ThreadsByIndex` | analyzer/go/internal/analysis/retained.go:109-133 | the thread sizes of both agree if and only if no thread that stays under its name has a copy, unless it retains nothing |
| `GoRefinement.RetainsNothing` | analyzer/go/internal/analysis/retained.go:109-133 | a thread retains nothing exactly when each of its locals is referenced or held by another thread |
| `GoRefinement.EqualThreadsDiffer` | analyzer/go/internal/analysis/retained.go:120-127 | two equal threads for which Python finds 8 bytes and Go none |
| `GoRefinement.CalculateRetainedHeap` | analyzer/go/internal/analysis/retained.go:39-57 | Go gives every object the size Python gives it, and every thread if and only if copied threads retain nothing; it gives up exactly when indexes run out |
| `HeapReader.HeapReader.Unpack` | analyzer/python/src/pydump_analyzer/reader.py:222-228 | a fixed-size big-endian number at the offset, or truncation |
| `HeapReader.HeapReader.NextText` | analyzer/python/src/pydump_analyzer/reader.py:198-206 | a string with its 16-bit length |
| `FileFormat.TextJudged` | analyzer/python/src/pydump_analyzer/reader.py:198-206 | such a string byte by byte, or truncation |
| `HeapReader.HeapReader.NextThreads` | analyzer/python/src/pydump_analyzer/reader.py:87-105 | the thread section |
| `HeapReader.HeapReader.NextAttributeName` | analyzer/python/src/pydump_analyzer/reader.py:188-196 | a name in full, or its index in the table, counted down from -1 |
| `HeapReader.HeapReader.NextCommonTypes` | analyzer/python/src/pydump_analyzer/reader.py:107-114 | the common types, their attributes read past |
| `HeapReader.HeapReader.NextContent` | analyzer/python/src/pydump_analyzer/reader.py:155-174 | container content and the addresses in it |
| `HeapReader.HeapReader.NextObject` | analyzer/python/src/pydump_analyzer/reader.py:125-152 | one object: referents united with content, string kept as an offset |
| `HeapReader.HeapReader.NextObjects` | analyzer/python/src/pydump_analyzer/reader.py:116-153 | all objects; a second one at an address is refused |
| `HeapReader.HeapReader.Read` | analyzer/python/src/pydump_analyzer/reader.py:56-85 | the imperative reader computes the format's meaning and has consumed every byte when it accepts |
| `Bytes.FromBeBe` | analyzer/python/src/pydump_analyzer/reader.py:40-44 | big-endian numbers read back as written |
| `Bytes.BeFromBe` | analyzer/python/src/pydump_analyzer/reader.py:40-44 | and every byte string is the encoding of the number it is read as |
| `Bytes.BeAt` | analyzer/python/src/pydump_analyzer/reader.py:40-44 | the most significant byte comes first: where each byte of a number stands |
| `Bytes.FromBeFirst` | analyzer/python/src/pydump_analyzer/reader.py:40-44 | and what the first byte read contributes |
| `Artifact.LastEntryStays` | analyzer/python/src/pydump_analyzer/reader.py:97-99 | of entries with one key, the last one stays |
| `FileFormat.OpeningJudged` | analyzer/python/src/pydump_analyzer/reader.py:56-63 | an artifact begins with twelve certain bytes, or is refused |
| `FileFormat.AttributeNameJudged` | analyzer/python/src/pydump_analyzer/reader.py:188-196 | an attribute name byte by byte: a length up to 32767 and the name, or 65535 for the first frequent name, 65534 for the second, and so on |
| `Compression.CodedObjectAt` | analyzer/python/src/pydump_analyzer/reader.py:125-152 | an object with its attributes in full, by index, or left out for a common type, reads back as it was |
| `Compression.SectionReads` | analyzer/python/src/pydump_analyzer/reader.py:66-79 | an object section reads back as the objects it was made from, whatever its tables of frequent names and common types hold and however it uses them |
| `Parsing.ManyLocal` | analyzer/python/src/pydump_analyzer/reader.py:56-85 | lists of local readings are local |
| `ArtifactLocality.ObjectLocal` | analyzer/python/src/pydump_analyzer/reader.py:125-152 | reading an object looks at nothing beyond what it consumes |
| `ArtifactLocality.BodyLocal` | analyzer/python/src/pydump_analyzer/reader.py:56-85 | nor does reading the whole body |
| `ArtifactLocality.EveryCutIsTruncated` | analyzer/python/src/pydump_analyzer/reader.py:56-85 | every strict prefix of an accepted artifact is refused as truncated |
| `ArtifactLocality.EveryExtensionIsMalformed` | analyzer/python/src/pydump_analyzer/reader.py:80-85 | every proper extension is refused |
| `HeapWriter.BinaryFile.Write` | capture/collector/src/pydump/heap_writer.py:43-48 | the seekable file: overwriting inside, appending at the end |
| `HeapWriter.HeapWriter.WriteU32` | capture/collector/src/pydump/heap_writer.py:162-165 | a value outside 32 bits is refused and nothing written |
| `HeapWriter.HeapWriter.WriteLongString` | capture/collector/src/pydump/heap_writer.py:155-160 | strings are cut at 65535 bytes |
| `FileFormat.TextSpelt` | capture/collector/src/pydump/heap_writer.py:155-160 | byte by byte: up to 65535 bytes whole behind their length, of a longer string the first 65535 |
| `FileFormat.ShortSpelt` | capture/collector/src/pydump/heap_writer.py:148-153 | the same for attribute names and 32767 bytes |
| `HeapWriter.HeapWriter.WriteShortString` | capture/collector/src/pydump/heap_writer.py:148-153 | attribute names are cut at 32767 bytes |
| `HeapWriter.HeapWriter.WriteHeader` | capture/collector/src/pydump/heap_writer.py:50-64 | the header, refused with nothing written when a well-known type is missing |
| `FileFormat.HeaderSpelt` | capture/collector/src/pydump/heap_writer.py:50-64 | the header byte by byte, with the thirteen names in their order |
| `HeapWriter.HeapWriter.WriteThreads` | capture/collector/src/pydump/heap_writer.py:66-80 | the thread section, or failure exactly when something in it does not fit |
| `FileFormat.ThreadFitsIff` | capture/collector/src/pydump/heap_writer.py:66-80 | a thread can be written exactly when its line numbers, addresses and lengths fit |
| `HeapWriter.HeapWriter.BeginObjects` | capture/collector/src/pydump/heap_writer.py:82-87 | two empty tables and room for the count, whose place is remembered |
| `HeapWriter.Sorted` | capture/collector/src/pydump/heap_writer.py:111-114 | the remaining referents in ascending order |
| `HeapWriter.HeapWriter.WriteObject` | capture/collector/src/pydump/heap_writer.py:89-129 | one object's bytes, size clamped; it fails exactly when the section is not begun or something does not fit |
| `FileFormat.SizeSpelt` | capture/collector/src/pydump/heap_writer.py:94 | the size written is the size, or the nearest number of 32 bits |
| `FileFormat.ObjectFitsIff` | capture/collector/src/pydump/heap_writer.py:89-129 | an object can be written exactly when its addresses and the lengths of its lists fit 64 and 32 bits |
| `HeapWriter.HeapWriter.Finish` | capture/collector/src/pydump/heap_writer.py:131-146 | the count overwrites the room left for it and nothing else; types and magic go to the end |
| `HeapWriter.WriteArtifact` | capture/collector/src/pydump/collector.py:139-200 | header, threads, objects and finish give the artifact bytes, with the count in place, and they read back |
| `ArtifactEncoding.AscendingHolds` | capture/collector/src/pydump/heap_writer.py:111-114 | the ascending sequence of a set holds each element once |
| `ArtifactEncoding.ThreadAt` | capture/collector/src/pydump/heap_writer.py:66-80 | a written thread is read back value by value: strings cut, each local under its name |
| `ArtifactEncoding.ObjectAt` | capture/collector/src/pydump/heap_writer.py:89-129 | a written object is read back value by value, wherever it stands: its size as it is where 32 bits hold it, its content by kind, its referents and those of its content, its string where there is one |
| `ArtifactRoundTrip.ObjectsAt` | capture/collector/src/pydump/heap_writer.py:89-129 | so are all of them, none lost or merged |
| `ArtifactRoundTrip.RoundTrip` | capture/collector/src/pydump/heap_writer.py:50-146 | a finished artifact reads back as the capture, value by value: header, names, threads, every object under its address and no other, types |
| `FileFormat.SomeArtifactSpelt` | capture/collector/src/pydump/heap_writer.py:50-146 | one whole artifact byte by byte, of a thread, a dict, a string and a tuple, and what a reader makes of these bytes |
| `ArtifactRoundTrip.StringsReadBack` | analyzer/python/src/pydump_analyzer/model.py:128-134 | every lazy string offset yields the representation written, or its first 65535 bytes |
| `ArtifactRoundTrip.TypesReadBack` | capture/collector/src/pydump/heap_writer.py:139-142 | the type table is read back |
| `UniqueSorted.Sort` | analyzer/go/internal/heap/reader.go:362 | sorting inside the array neither adds nor loses an element |
| `UniqueSorted.StrictIsAscending` | analyzer/go/internal/heap/reader.go:358-370 | a set has one strictly ascending sequence |
| `UniqueSorted.UniqueSorted` | analyzer/go/internal/heap/reader.go:358-370 | sorting and compacting in the same array leaves the ascending sequence of the elements there were |
| `GoReader.GoReader.Content` | analyzer/go/internal/heap/reader.go:316-356 | Go's content is Python's, but a set where the header gives sets and tuples one address and Python takes a tuple |
| `GoReader.SameUnlessAmbiguous` | analyzer/go/internal/heap/reader.go:316-356 | so the two agree exactly outside that case |
| `GoAnalysis.TupleIsTakenForSet` | analyzer/go/internal/heap/reader.go:316-356 | of an object in that case, Python makes a tuple and Go the set of its elements, in every artifact |
| `GoAnalysis.SetsAndTuplesDiffer` | analyzer/go/internal/heap/reader.go:316-356 | a concrete artifact that both accept and read differently |
| `GoReader.GoReader.Object` | analyzer/go/internal/heap/reader.go:250-300 | one record agrees with Python's object, referents sorted and unique |
| `GoReader.GoReader.Objects` | analyzer/go/internal/heap/reader.go:234-314 | records in file order with an index by address: the same objects |
| `GoReader.GoReader.Read` | analyzer/go/internal/heap/reader.go:54-144 | Go accepts exactly the artifacts Python accepts, and reads the same |
| `GoAnalysis.ReaderGuarantees` | analyzer/go/internal/heap/reader.go:234-314 | what Go reads has unique addresses and no repeated referent, as the graph builder needs |
| `GoAnalysis.Analyze` | analyzer/go/internal/analysis/retained.go:39-57 | from bytes to sizes: for every accepted artifact Go gives Python's retained sizes, to threads if and only if copied threads retain nothing, or gives up, exactly when the heap has too many objects or addresses |
| `Protocol.EncodeBulkBatch` | capture/collector/src/pydump/protocol.py:158-167 | succeeds exactly for bulk records within the limit, and what it gives decodes to them |
| `Protocol.DecodeBulkBatch` | capture/collector/src/pydump/protocol.py:170-190 | the loop decodes a payload as specified; what it accepts encodes to the payload |
| `Protocol.BulkInverse` | capture/collector/src/pydump/protocol.py:158-190 | encoding and decoding are inverse to each other, in both directions |
| `WireFormat.KindNumbers` | capture/collector/src/pydump/protocol.py:26-46 | the kinds by their numbers |
| `WireFormat.BulkNumbers` | capture/collector/src/pydump/protocol.py:49-63 | which kinds may travel as records |
| `WireFormat.FrameSpelt` | capture/collector/src/pydump/protocol.py:105-111 | a frame byte by byte |
| `WireFormat.HeaderJudged` | capture/collector/src/pydump/protocol.py:126-144 | how a header is judged byte by byte, the first thing wrong with it deciding |
| `Framing.NextWireInverse` | capture/collector/src/pydump/protocol.py:105-144 | a stream begins with a frame exactly when it begins with the bytes written for it |
| `Framing.FramesAreDelivered` | capture/collector/src/pydump/protocol.py:113-124 | repeated receives give the messages of all frames in order, bulk frames taken apart |
| `Framing.EmptyBatchIsRefused` | capture/collector/src/pydump/protocol.py:119-121 | a bulk frame without a record is refused, after everything before it has been delivered |
| `Framing.NextExtends` | capture/collector/src/pydump/protocol.py:126-156 | bytes behind a frame do not change it |
| `Framing.FramedSocket.Send` | capture/collector/src/pydump/protocol.py:105-111 | a frame's bytes, or a refusal above the limit with nothing sent |
| `Framing.ReceiveExact` | capture/collector/src/pydump/protocol.py:146-155 | a buffer filled from arbitrary short reads holds exactly the next bytes, or the peer is gone |
| `Framing.FramedSocket.ReceiveWireFrame` | capture/collector/src/pydump/protocol.py:126-144 | the next frame, with the checks in their order |
| `Framing.FramedSocket.Receive` | capture/collector/src/pydump/protocol.py:113-124 | the next message, the same for every fragmentation of the stream |
| `Handshake.HelloInverse` | capture/collector/src/pydump/protocol.py:193-211 | hello encoding and decoding are inverse |
| `Handshake.HelloAccepted` | capture/collector/src/pydump/collector.py:114-126 | a hello is accepted exactly when it is one of this session, of CPython 3.10 or later, 64-bit and little-endian |
| `WireFormat.HelloSpelt` | capture/collector/src/pydump/protocol.py:193-211 | a hello byte by byte |
| `Handshake.OptionsInverse` | capture/collector/src/pydump/protocol.py:214-224 | options encoding and decoding are inverse |
| `WireFormat.OptionsSpelt` | capture/collector/src/pydump/protocol.py:214-224 | options byte by byte, negative lengths and the limits of the range included |
| `WireFormat.AddressSpelt` | capture/collector/src/pydump/protocol.py:227-235 | where each byte of each address in a batch stands |
| `ObjectStream.AddressesInverse` | capture/collector/src/pydump/protocol.py:227-235 | an address batch is accepted exactly when it encodes some addresses |
| `ObjectStream.ObjectBeginInverse` | capture/collector/src/pydump/protocol.py:245-274 | begin records are inverse up to the cut of the name |
| `WireFormat.BeginSpelt` | capture/collector/src/pydump/protocol.py:260-274 | a begin record byte by byte |
| `WireFormat.LongNameSpelt` | capture/collector/src/pydump/protocol.py:260-274 | of a longer type name, the first 65535 bytes travel |
| `WireFormat.ContentNumbers` | capture/collector/src/pydump/model.py:7-12 | the kinds of content by their numbers |
| `WireFormat.ChunksSpelt` | capture/agent/agent.c:270-278 | addresses travel 256 to a record, in order, the rest in the last one |
| `WireFormat.BeginJudged` | capture/collector/src/pydump/collector.py:204-222 | when a begin record is accepted for the object asked for, byte by byte, and what it says |
| `WireFormat.RecordJudged` | capture/collector/src/pydump/collector.py:223-241 | what each record does to the object so far, or why it is refused, by the number of its kind |
| `WireFormat.PreviewSpelt` | capture/collector/src/pydump/collector.py:233-240 | the last representation sent counts, and warnings change nothing |
| `WireFormat.RepresentationSpelt` | capture/collector/src/pydump/collector.py:238-240 | when an object without a representation is described, and how much of the description is kept |
| `WireFormat.DescriptionSpelt` | capture/collector/src/pydump/collector.py:238-240 | such a description, character by character |
| `WireFormat.TupleSpelt` | capture/agent/agent.c:499-518 | all records of one tuple, byte by byte |
| `ObjectStream.ChunksAreFolded` | capture/collector/src/pydump/collector.py:226-232 | chunks of 256 addresses add up, and no dictionary chunk splits a key from its value |
| `ObjectStream.ObjectArrives` | capture/collector/src/pydump/collector.py:204-241 | every object, however long, is put together as it was sent |
| `AgentBuffers.RecordBatch.Flush` | capture/agent/agent.c:136-150 | the buffer leaves as one frame; an empty one sends nothing |
| `AgentBuffers.RecordBatch.AppendParts` | capture/agent/agent.c:152-209 | nothing is lost or reordered on either path, no frame is empty, none but that of a single oversized record exceeds 32 KiB |
| `WireFormat.BufferFills` | capture/agent/agent.c:152-209 | which frames an appended record lets go, and what is left in the buffer, by the limit of 32768 bytes |
| `AgentBuffers.GatherCarries` | capture/agent/agent.c:152-209 | appending a record keeps all records in order on each of its paths, in legal frames within the limits |
| `AgentBuffers.GatheredCarries` | capture/agent/agent.c:136-209 | and so for every sequence of records: frames sent and records left are the records there were, in order, no frame empty, none but that of a single oversized record above 32 KiB |
| `AgentBuffers.DeliveredThen` | capture/agent/agent.c:136-209 | deliveries one after the other are one delivery |
| `AgentBuffers.DeliveredIsReceived` | capture/agent/agent.c:136-209 | what was delivered is received record for record |
| `AgentSession.AddressStream.Flush` | capture/agent/agent.c:252-268 | the gathered addresses become one record, in network order |
| `AgentSession.AddressStream.Stream` | capture/agent/agent.c:270-278 | every streamed address is gathered or already in a record; 256 make one |
| `AgentSession.SendAddresses` | capture/agent/agent.c:422-460 | roots, content and referents leave in chunks of 256 |
| `AgentSession.SendDictContent` | capture/agent/agent.c:462-480 | dictionary content leaves as keys and values alternately |
| `AgentSession.SendObjectBegin` | capture/agent/agent.c:394-420 | the begin record, its name cut at 65535 bytes |
| `AgentSession.SendObject` | capture/agent/agent.c:499-518 | begin, content, referents, end |
| `AgentSession.Agent.SendRoots` | capture/agent/agent.c:334-374 | all roots and then the end of the roots |
| `AgentSession.ReceiveInto` | capture/agent/agent.c:89-104 | so many bytes into a buffer that must have room for them, from as many reads as it takes |
| `AgentSession.Agent.ReceiveFrame` | capture/agent/agent.c:222-240 | the Agent's reading of a frame into a buffer of given room, which it does not compare with the frame's length: a frame, a failure, or bytes past the end |
| `AgentSession.OverrunsIff` | capture/agent/agent.c:222-240 | such a read overruns exactly when the stream begins with the header of a permitted frame that has no room, and more bytes follow than there is room for |
| `AgentSession.LongAcknowledgementOverruns` | capture/agent/agent.c:594-597 | a frame on which it does: an acknowledgement of six bytes, for which there are five |
| `AgentSession.AgentFrameIs` | capture/agent/agent.c:222-240 | where the kind is known and the frame has room, Agent and Collector read frames alike |
| `AgentSession.Agent.AnswerRequest` | capture/agent/agent.c:537-548 | every object asked for is sent, in order, before the batch is declared done |
| `AgentSession.Agent.HandleRequests` | capture/agent/agent.c:520-550 | the request loop: exactly the requests that the stream brings are answered, in order; it completes if and only if the finish comes, complains if and only if something else comes, and says no more when the stream breaks off |
| `AgentSession.DemandsInverse` | capture/agent/agent.c:520-550 | a stream demands these requests and then finishes exactly when it begins with their frames and the finish |
| `AgentSession.DemandsAreRequests` | capture/agent/agent.c:520-550 | however a stream goes on, the requests taken from it stand at its front, frame by frame |
| `AgentSession.Agent.SessionMain` | capture/agent/agent.c:593-607 | a whole session, settled by the stream it hears: served if and only if an acknowledgement, requests and the finish come, with hello, types, roots, all answers and the completion sent, frame by frame; otherwise the error frame behind the hello, or behind the answers to all requests that came; no defined end exactly when reading the first frame overruns |
| `WireFormat.ComplaintsSpelt` | capture/agent/agent.c:520-607 | the last words of the Agent, character by character |
| `WireFormat.SilenceFails` | capture/agent/agent.c:593-607 | what it sends when it hears nothing |
| `WireFormat.FinishCompletes` | capture/agent/agent.c:520-550 | what it sends when it hears an acknowledgement and the finish |
| `WireFormat.AnythingElseFails` | capture/agent/agent.c:520-550 | what it sends when something else than a request or the finish comes |
| `AgentSession.SaidIsReceived` | capture/agent/agent.c:71-87 | what the Agent says is received message for message |
| `CollectorModel.ScheduleAll` | capture/collector/src/pydump/collector.py:149-156 | scheduling adds exactly the new non-zero addresses, each once, to both the set and the stack |
| `CollectorModel.NewOnesInOrder` | capture/collector/src/pydump/collector.py:149-156 | new addresses are pushed in their order |
| `CollectorModel.TypesByPosition` | capture/collector/src/pydump/collector.py:169 | the type table starts with each well-known address under the name at its place, the last name for equal addresses |
| `CollectorModel.StepKeepsInv` | capture/collector/src/pydump/collector.py:158-192 | every message keeps the account: each scheduled address is exactly once written, requested or pending, and is reachable |
| `CollectorModel.CaptureIsReachable` | capture/collector/src/pydump/collector.py:146-202 | whatever the peer sends, a finished capture has written exactly what is reachable, each object once, with no dangling reference and never address 0 |
| `CollectorModel.RequestsAreExact` | capture/collector/src/pydump/collector.py:172-174 | the requests ask for exactly the objects written, in order, in batches within the batch size |
| `CollectorModel.RequestSpelt` | capture/collector/src/pydump/collector.py:172-174 | a request takes the last pending addresses, last first, as many as there are or the batch size allows |
| `CollectorModel.RunsNamed` | capture/collector/src/pydump/collector.py:168-178 | the name entered for a type is that of the last object of the type, or the one it is well known by |
| `CollectorModel.RunsTyped` | capture/collector/src/pydump/collector.py:168-178 | every written object has an entry in the type table |
| `CollectorModel.ParseExtends` | capture/collector/src/pydump/collector.py:220-241 | what some messages settle about an object stays settled |
| `CollectorModel.RunsObject` | capture/collector/src/pydump/collector.py:175-190 | the messages of one object take the machine past it |
| `Collector.KnownByPosition` | capture/collector/src/pydump/collector.py:139 | the header's table gives the name at each of the thirteen places the address at this place, and no other name |
| `Collector.ReceiveObject` | capture/collector/src/pydump/collector.py:204-241 | the record loop puts an object together, or fails where the record sequence does |
| `Collector.PendingWork.Schedule` | capture/collector/src/pydump/collector.py:149-156 | the scheduling loop is the specified one |
| `Collector.PendingWork.PopBatch` | capture/collector/src/pydump/collector.py:173 | a batch is the end of the stack, last first |
| `Collector.Collector.Greet` | capture/collector/src/pydump/collector.py:114-130 | the hello is checked and acknowledged |
| `Collector.Collector.ReceiveRoots` | capture/collector/src/pydump/collector.py:158-167 | roots are scheduled batch by batch until they are done |
| `Collector.Collector.CaptureObject` | capture/collector/src/pydump/collector.py:175-190 | one object is received, written and expanded |
| `Collector.Collector.CaptureBatch` | capture/collector/src/pydump/collector.py:172-191 | one batch, object for object, up to its end |
| `Collector.Collector.Capture` | capture/collector/src/pydump/collector.py:107-202 | a whole capture against any peer is a run of the machine; it succeeds exactly when the run finishes, and has sent and written what the run says |
| `Collector.FileIsArtifact` | capture/collector/src/pydump/collector.py:107-202 | the file of a finished capture is its artifact and reads back |
| `Collector.FinishedFits` | capture/collector/src/pydump/collector.py:146-202 | a finished capture fits the format: unique addresses, types present, counts and addresses in range |
| `Collector.FinishedFileReads` | capture/collector/src/pydump/collector.py:107-202 | the reader accepts that file, and its objects are exactly the reachable ones |
| `Session.SendingKeepsQueue` | capture/agent/agent.c:136-209 | no sending step of the Agent loses or reorders a message on its way |
| `Session.CollectorTakes` | capture/collector/src/pydump/collector.py:107-202 | what an honest Agent sends is what the Collector waits for |
| `Session.AgentAnswers` | capture/agent/agent.c:520-550 | what the Collector says makes the Agent send exactly what the Collector then expects |
| `Session.MovesKeepInv` | capture/collector/src/pydump/collector.py:107-202 | every interleaving of the two keeps the session's invariant |
| `SessionRuns.SomebodyMoves` | capture/collector/src/pydump/collector.py:107-202 | until the Collector is at its end, one of the two can move |
| `SessionRuns.MovesDrop` | capture/collector/src/pydump/collector.py:107-202 | every step lowers a measure |
| `SessionRuns.SessionIsSafe` | capture/collector/src/pydump/collector.py:107-202 | in every reachable state at most one direction is in use, no protocol error has occurred, and everything written is as in the process |
| `SessionRuns.SessionEnds` | capture/collector/src/pydump/collector.py:107-202 | no run is longer than the measure of its start |
| `SessionRuns.FramesFitTheirBuffers` | capture/agent/agent.c:594-597 | in every state of every run, the frame on its way to the Agent fits the buffer it is read into |
| `SessionRuns.BatchIsAnswered` | capture/agent/agent.c:537-548 | before a batch is done, everything asked for has been written |
| `SessionRuns.SessionDelivers` | capture/collector/src/pydump/collector.py:107-202 | a finished session has delivered exactly the reachable objects of the process, and nothing is left on the way |
| `SessionArtifact.WrittenIsReachableInProcess` | capture/collector/src/pydump/collector.py:146-202 | what a finished Collector has written is the least set that holds the roots and well-known types of the process and all that the objects in it refer to |
| `SessionArtifact.SessionArtifactReads` | capture/collector/src/pydump/collector.py:107-202 | from process to analyzer: the artifact of a finished session is accepted, and the heap read from it is the process: the well-known names with their addresses, exactly the reachable objects, each with its address, type, size, content and referents, and the names of their types |
| `SessionArtifact.CaptureArtifactReads` | capture/collector/src/pydump/collector.py:107-202 | the same for the two programs joined by their bytes |
| `SessionSucceeds.RunsNeverFail` | capture/collector/src/pydump/collector.py:107-202 | if no list of the process and not the number of its reachable objects exceeds 32 bits, no state of any run has failed |
| `SessionSucceeds.SessionSucceeds` | capture/collector/src/pydump/collector.py:107-202 | and every run that cannot go on has finished, with an artifact that reads as the process |
| `SessionSucceeds.SessionRunsThrough` | capture/collector/src/pydump/collector.py:107-202 | and there is such a run, for every such process |
| `SessionSucceeds.PlainSession` | capture/collector/src/pydump/collector.py:107-202 | a small process whose capture comes to its end, with exactly its fourteen objects |
| `AgentMachine.SendingIsGathering` | capture/agent/agent.c:136-209 | each sending step of the machine in the joined session is a step of the record buffer |
| `AgentMachine.ProgramSends` | capture/agent/agent.c:593-607 | what the program sends on a stream begins with what the machine's account says for the part heard so far |
| `AgentMachine.ProgramEnds` | capture/agent/agent.c:593-607 | when nothing more is heard, the program gives up behind that, or has finished |
| `AgentMachine.AgentSendsAsItsProgram` | capture/agent/agent.c:593-607 | in every state of every run, the frames sent by the machine begin what the program sends on the bytes the Collector has sent, whatever comes behind them, and are all of it once the Collector has finished |
| `AgentMachine.SentIsPrefix` | capture/agent/agent.c:520-550 | having heard less, the program has sent a part of what it sends in the whole session |
| `SessionBytes.RunsInStep` | capture/collector/src/pydump/collector.py:107-202 | fed with what a served session says, the Collector stays in step with it, message for message |
| `SessionBytes.CaptureNeverOverruns` | capture/collector/src/pydump/collector.py:127-130 | whatever the peer says, the first frame a capture sends fits the Agent's buffer |
| `SessionBytes.CaptureOfServedSession` | capture/collector/src/pydump/collector.py:107-202 | a capture that reads what a served session writes, and is heard by it, has written exactly the reachable objects of the process, unless the artifact cannot hold them |
| `SessionBytes.CaptureMeetsAgent` | capture/collector/src/pydump/collector.py:107-202 | the two programs joined by their bytes, each hearing all that the other says and no more: the same, and the session is then served, without assuming that it is |
| `NonceHex.DecodeNonce` | capture/agent/agent.c:619-640 | decoding succeeds exactly on 32 lower-case digits and gives the nonce they spell |
| `NonceHex.EncodeNonce` | capture/agent/agent.c:678-683 | the digits written spell the nonce |
| `WireFormat.DigitsSpelt` | capture/agent/agent.c:625-636 | a digit is 0 to 9 or lower-case a to f, with the value it shows |
| `NonceHex.NonceInverse` | capture/agent/agent.c:619-683 | encoding and decoding are inverse |
| `AgentFlags.MovesKeepInv` | capture/agent/agent.c:56-58 | every step of every call, callback and session keeps one owner per token and the buffer with its owner |
| `AgentFlags.AtMostOneSession` | capture/agent/agent.c:642-672 | there is never more than one session |
| `AgentFlags.CallbackStartsAsScheduled` | capture/agent/agent.c:674-714 | a queued callback starts with exactly the path and nonce of the schedule call that queued it, and is never refused for its arguments |
| `AgentFlags.EverythingIsReleased` | capture/agent/agent.c:579-617 | when all is over, both flags are free and cyclic collection is as at first |
| `AgentFlags.CollectionIsRestored` | capture/agent/agent.c:588-612 | a session that has stopped serving has put cyclic collection back |
| `AgentProgress.ArrivalJudged` | capture/agent/agent.c:645-648 | a call is refused at once exactly when an argument is missing or the path has more than 107 bytes |
| `AgentProgress.StartResultSays` | capture/agent/agent.c:642-672 | the step in which a start call comes to its result: with 0 it adds exactly one session, with the call's path and the nonce its digits spell, and keeps the flag; with another result it adds none, and the result says why |
| `AgentProgress.ScheduleResultSays` | capture/agent/agent.c:690-714 | the step in which a schedule call returns: with 0 it queues exactly one callback, with the call's path and the nonce its digits spell; with another result none |
| `AgentProgress.NobodyIsStuck` | capture/agent/agent.c:579-714 | in every state, a call, callback or session that has not returned can make a step, and is back after at most five of its own |
| `AgentProgress.StartCanServe` | capture/agent/agent.c:642-672 | with the session flag free and a nonce that decodes, a start call can get through to a session that serves, on exactly its path and nonce |
| `AgentProgress.ScheduleCanServe` | capture/agent/agent.c:674-714 | with both flags free, so can a schedule call, through its callback |

## Left out

- Loaders and injection: GDB scripts, ptrace, symbol lookup, machine code; they depend on kernel, debugger and target.
- Object facts, GC generation walking and CPython layouts: the Agent's view of an object is an abstract record.
- Command line, target and namespace detection, Docker, environment probing, progress and statistics: plumbing.
- Timeouts, errno handling, fsync, renaming, output path suffixes and the final magic check of `validate_artifact`.
- Reports, digests and the JSON cache of retained sizes: library calls around the results proved here.
- UTF-8 and backslashreplace decoding: strings stay bytes, so a cut may fall inside a character here as it does in the code.
- Rendering container strings from their elements (analyzer/python/src/pydump_analyzer/model.py:91-126): only the lazily
  read representation is modelled.
- The Go reader's primitive reads, thread section and tables are read by the same code as Python's (`HeapReader`), since they
  do the same line for line; error messages are not told apart beyond truncated, malformed and missing key.
- The Agent's address stream without a batch (capture/agent/agent.c:263-264): no caller uses it.
- The Agent's ATTRIBUTES, PREVIEW and WARNING records: it never sends them; the Collector's handling of them is modelled.
- CANCEL frames: no code sends or handles them.
- Session: frames pass between the two machines as wholes; that a frame may arrive in pieces is covered by
  `Framing.FramedSocket.Receive` and `SessionBytes.CaptureMeetsAgent`, not by the interleavings.
- AgentSession.Agent.SessionMain: what the Agent does once its options buffer has overrun is not stated; the language
  leaves it undefined.
- AgentFlags.MovesKeepInv: threads other than the Agent's do not switch cyclic collection while a session serves, because it
  holds the interpreter lock.
- GoGraph.BuildGraph: heaps with two objects at one address, which the reader refuses, are not covered.
- AgentBuffers.RecordBatch.AppendParts: records whose frame would exceed the protocol's payload limit are not covered, because
  no caller can make one: names are cut at 65535 bytes and chunks at 256 addresses.
- HeapWriter.HeapWriter.WriteObject: what is in the file after a failed write is not stated; the Collector then discards it.
