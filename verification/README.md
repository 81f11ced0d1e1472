# idax: verified models of the computing core

idax wraps the IDA SDK in a C++ interface. Most of it forwards calls, but some parts compute on
their own data. This project models those parts in Dafny and proves what they do, for every input
and, where they keep state, for every run.

| area | files |
|---|---|
| ordering, trimming and layout of type declarations | `TypeModel`, `TypeWalk`, `WalkOrder`, `DepthLimit`, `Mentions`, `TypeFormatter`, `StructLayout` |
| plugin allow-list patterns | `Wildcard` |
| the adjacency-list graph with groups | `AdjacencyGraph`, `GraphObject` |
| typed reads and writes of database memory | `TypedCodec`, `ElementSequences`, `TypedReads`, `TypedLaws`, `TypedDatabase` |
| building, parsing and placing microcode; call-argument slots | `MicrocodeBuilder`, `MicrocodeBlock`, `CallLayout` |
| subscription tokens of the user interface and of the decompiler | `EventRouting`, `EventHub`, `CallbackRegistry` |
| pseudocode item ranges, Mach-O load commands, address tags | `ItemRanges`, `MachOScan`, `AddressTags` |

Each file holds one module. Where the source changes things step by step, a class or a method with
loops follows it, and its `ensures` ties the new state to a specification function on values; the
lemmas are about those functions. Check everything with `dafny verify dfyconfig.toml`.

## Main results

- **Type declarations.** On every finite type graph, cyclic or not, the walk terminates, restores
  its stack and lists no name twice. Without a depth limit the output is exactly the set of
  reachable names that trimming does not drop, and, dropped names aside, dependencies precede their
  users if and only if no cycle can be reached. Without trimming, the two separately written walks
  list the same names in the same order. A struct depends on exactly the names that its members
  lead to, with a used offset in the span of the member where trimming applies; the first k roots
  list exactly what they reach before all else, and a name on no cycle comes directly behind what
  its members list. With members sorted and inside the struct, a trimmed body accounts for every
  byte exactly once: either kept members have something in it, or exactly one padding line holds it
  (a kept bitfield of no bits takes the byte it starts inside).
- **Where that falls short, exactly.** A depth limit loses no name within it, for all libraries and
  roots, if and only if it is negative (no limit) or zero. For a given library, a positive limit is
  harmless for all roots if and only if from every single name it cuts nothing off, and every limit
  is if and only if the dependencies are transitive. Names dropped by trimming aside, the output
  mentions a name it lacks if and only if a reachable type hides in an anonymous member a name that
  is not reached openly. Below byte 2^31, a used byte of a bitfield keeps the bitfield if and only
  if it lies within as many bytes, at least one, from its first as the bitfield has whole bytes; a
  used byte past them can be printed as padding.
- **Patterns.** Every match is a match of the recursive definition of globbing, and on every text
  without a `*` the two agree. The matcher takes a `*` of the text literally when the pattern has a
  `*` there, so it misses matches on other texts; what it accepts for every pair of text and
  pattern is stated by a recursion on the two alone. `include/ida/database.hpp:120-122` promises
  plain wildcard matching; the code is followed here. A text gets the right answer for all patterns
  exactly when it has no `*`, and a pattern gets it for all texts exactly when it has none.
- **Graph.** In every run a parent link names a group slot that lists the node. The other direction
  (live nodes that a live group lists point back to it), live parents of live nodes, nesting and
  live edges each survive a step exactly when a guard that can be checked beforehand holds, and a
  whole run keeps all five invariants throughout exactly when each of its steps passes. The
  breadth-first search finds exactly the chains that exist.
- **Typed memory.** A write succeeds exactly when the value has the type's shape, its numbers fit
  their widths, its last separately addressed element starts no later than the bad address, and it
  nests at most 64 levels deep. It changes only its own range; if it fails inside nested arrays it
  lays down exactly the bytes before the refused leaf. A read succeeds exactly when its numbers
  have fixed widths and loaded first bytes, its elements sizes and addresses, and its nesting 64
  levels, and a byte array reads as text exactly when a printable prefix runs up to a NUL or its
  end. Reading returns the normal form of what was written. Writing back what was read succeeds
  exactly when the type holds no integer wider than eight bytes, empty arrays aside, and then
  leaves memory as it was exactly when no recognised string hides non-zero bytes after its first
  NUL.
- **Microcode.** Building succeeds exactly on well-formed trees of at most sixteen levels of nested
  instruction, and gives the SDK body, size and mark of each kind. Parsing what was built gives the
  tree back, with signed numbers in unsigned form and helper names as C strings. Emitting a list
  onto a non-empty block `B` gives `B ++ list`, `reverse(list) ++ B` or `B[..n-1] ++ list ++
  [last]`, by policy.
- **Subscriptions.** A generic subscription is heard once by each of the thirteen notifications,
  and its removal gives both listeners back what they had. In every run that keeps the counters
  below 2^62, a plain token stays live exactly until its own removal, and the thirteen
  subscriptions behind a generic token stay whole exactly as long as the run removes neither that
  token nor one of its inner tokens. Removal takes out exactly a token's own handlers, and a
  removed token is never found again.

## Model

| member | source | states |
|---|---|---|
| TypeModel.UsedOffsetsMap | src/type.cpp:718-728 | the merged map has a key for each non-empty type name with an entry, and an offset is in it exactly when some entry of that name lists it |
| TypeModel.LowerBound | src/type.cpp:880 | the least used offset not below the argument, or none when all are below |
| TypeModel.TrimmingTestsAgree | src/type.cpp:876-882 | the walk's skip test and the emitter's keep test are opposites, and a member is kept exactly when some used offset lies in its span: from its first byte, as many bytes as it has whole bytes, at least one |
| TypeModel.KeptInOrder | src/type.cpp:874-885 | the visited types are, in member order, those of the members with a used offset in their span, or of all members when there is no selection |
| TypeModel.VisitedMembers | src/type.cpp:864-885 | reaching an undropped name, the walk visits exactly the members with a used offset in their span when trimming is on and the name is no union, and all members otherwise, in order |
| TypeModel.AllMembersVisited | src/type.cpp:874-885 | without used offsets the visited types are those of all members, in member order |
| TypeWalk.Walk | src/type.cpp:823-895 | the recursion terminates on cyclic graphs and returns with the stack it was given |
| TypeWalk.WalkKeepsConsistent | src/type.cpp:850-894 | the output only grows, lists no name twice, matches `emitted`, and never holds a name on the stack |
| TypeWalk.WalkCovers | src/type.cpp:823-895 | without a depth limit, each name a walked type mentions ends up emitted, dropped or on the stack, and so does each name that a kept member of an emitted type mentions |
| TypeWalk.EmissionSeesDependencies | src/type.cpp:858-894 | at the moment a name is emitted, everything its kept members mention is emitted, dropped or on the stack |
| TypeWalk.WalkEmitsOnlyReachable | src/type.cpp:823-895 | every newly emitted name is reached from the walked type by a path within the depth limit and is not dropped |
| TypeWalk.RunIsSound | src/type.cpp:789-815 | a run leaves the stack empty, repeats no name, and emits only undropped names within the depth limit of a root |
| TypeWalk.RunEmitsExactlyReachable | src/type.cpp:823-895 | without a depth limit a name is emitted if and only if it is reachable from the roots and not dropped |
| TypeWalk.WalkNamedOrders | src/type.cpp:850-894 | the step that emits a name keeps dependencies first when no cycle is reachable from it |
| TypeWalk.DependenciesFirstIffAcyclic | src/type.cpp:850-894 | every dependency precedes its user if and only if no cycle, pointers included, is reachable from the roots |
| DepthLimit.SmallLimitIsComplete | src/type.cpp:853-856 | without a limit, or with limit zero, a run lists exactly the undropped names within the limit |
| DepthLimit.EarlierNamesDoNotMatter | src/type.cpp:853-894 | at any depth and limit, having a set of names that is closed under dependencies emitted beforehand changes nothing about which other names a walk emits |
| DepthLimit.UncutIsComplete | src/type.cpp:853-856 | where the limited walk from each single name lists every undropped name that it reaches, every run lists exactly the undropped names within the limit |
| DepthLimit.TransitiveCutsNothing | src/type.cpp:853-856 | so it is with any positive limit where the dependencies are transitive |
| DepthLimit.TolerantPathsAreShort | src/type.cpp:853-856 | if a library loses nothing under a positive limit for any roots, whatever undropped name a name reaches it reaches within the limit |
| DepthLimit.CompleteForContextIff | src/type.cpp:853-856 | for a given library and positive limit, nothing is lost for any roots if and only if the limited walk from each single name lists every undropped name that it reaches |
| DepthLimit.LimitOneCompleteIff | src/type.cpp:853-856 | for a given library, limit one loses nothing for any roots if and only if the dependencies are transitive |
| DepthLimit.EveryLimitCompleteIff | src/type.cpp:853-856 | for a given library, no limit loses anything for any roots if and only if the dependencies are transitive |
| DepthLimit.DepthLimitIsIncomplete | src/type.cpp:853-856 | for every positive limit there are a library and roots with a name within the limit that is not listed |
| DepthLimit.LimitCompleteIff | src/type.cpp:853-856 | a limit loses nothing for all libraries and roots if and only if it is at most zero |
| TypeWalk.List | src/type.cpp:1428-1469 | the second walk terminates and never forgets a seen name |
| TypeWalk.WalksAgree | src/type.cpp:1428-1469 | without trimming or a limit the two walks run in step, with `seen` equal to what is emitted or on the stack |
| TypeWalk.ListingsAgree | src/type.cpp:1422-1478 | without trimming both entry points list the same names in the same order |
| WalkOrder.LeavesAreHeld | src/type.cpp:829-852 | the names the walk follows from a type are those that a chain of pointers, arrays and function types leads to |
| WalkOrder.DepsIff | src/type.cpp:864-885 | an undropped struct depends on a name if and only if such a chain leads to it from a member that has a used offset in its span, or from any member when trimming does not apply |
| WalkOrder.SecondWalkVisitsAll | src/type.cpp:1453-1458 | the second walk visits the types of all members, in member order |
| WalkOrder.RootsInOrder | src/type.cpp:794-799 | the output starts with exactly the undropped names that the first k roots reach, for every k |
| WalkOrder.NameFollowsItsMembers | src/type.cpp:858-894 | a name on no cycle is listed directly behind what its visited members list when they are the roots, in their order |
| WalkOrder.FunctionTypesInOrder | src/type.cpp:840-848 | a function type lists its result type first, then its parameters in order |
| Mentions.DepsAreMentioned | src/type.cpp:850-852 | what the walk follows is among what the kept members mention |
| WalkOrder.MentionedAreHeld | src/type.cpp:829-852 | the names a type mentions are those that a chain through pointers, arrays, function types and members of anonymous structs leads to |
| WalkOrder.MentionedByIff | src/type.cpp:864-885 | an undropped struct mentions a name if and only if such a chain leads to it from a visited member |
| Mentions.ClosedUnderMentionIff | src/type.cpp:850-852 | without a limit, every name the printed types mention is printed or dropped if and only if each name hidden in an anonymous member of a reachable type is also reached openly or dropped |
| Mentions.HiddenNameIsMissing | src/type.cpp:850-852 | a library where a name that only an anonymous member mentions is not printed |
| TypeFormatter.DroppedIffUnused | src/type.cpp:864-872 | a struct is dropped exactly when trimming is on and no entry of the options lists an offset for it |
| TypeFormatter.NamedRootsInOrder | src/type.cpp:794-799 | the roots come in the order of the names |
| TypeFormatter.OrdinalRootsInOrder | src/type.cpp:808-813 | the roots come in the order of the ordinals |
| TypeFormatter.SingleRoots | src/type.cpp:730-742 | a name gives a root if it is not empty and known, an ordinal if it is not zero and known |
| TypeFormatter.TypeDeclarationFormatter.constructor | src/type.cpp:786-787 | the formatter holds the library, the trim flag and the merged used offsets |
| TypeFormatter.TypeDeclarationFormatter.Walk | src/type.cpp:823-895 | the walk that updates the three containers in place refines the walk on values |
| TypeFormatter.TypeDeclarationFormatter.RenderNamed | src/type.cpp:789-801 | the output is the run over the types of the names that resolve, in order, with the given limit |
| TypeFormatter.TypeDeclarationFormatter.RenderOrdinals | src/type.cpp:803-815 | the output is the run over the types of the ordinals that resolve, without a limit |
| TypeFormatter.ListingBuffers.Walk | src/type.cpp:1428-1469 | the lambda that updates `seen` and `result` refines the second walk on values |
| TypeFormatter.DeclarationsForOrdinals | src/type.cpp:1422-1478 | its names are those of the second walk, and those `RenderOrdinals` lists without trimming |
| StructLayout.EmitUdt | src/type.cpp:921-1075 | the loops and early exits produce the body that the layout specification gives: omitted, opaque, or a list of lines |
| StructLayout.KeepIndices | src/type.cpp:936-947 | the kept indices select the subsequence of members that pass the keep test |
| StructLayout.LayOutKept | src/type.cpp:1033-1047 | the cursor loop lays out the kept members with the padding the specification gives |
| StructLayout.KeptSubsequence | src/type.cpp:938-947 | the kept members are exactly the members that pass the test, and stay sorted |
| StructLayout.PaddingFromCursor | src/type.cpp:1033-1047 | from any cursor, a byte is in one padding line if it is at or past the cursor, before the end of the struct and in no kept member, else in none |
| StructLayout.InMemberIff | src/type.cpp:1041-1043 | the byte range of a member is the bytes in which it has a bit, or a whole byte when it is no bitfield; a bitfield of no bits inside a byte takes that byte |
| StructLayout.TrimmedBodyPartitions | src/type.cpp:936-1047 | in a trimmed body of sorted members inside the struct, a byte of the struct is in no padding line if a member with a used offset in its span has something in it, else in exactly one; no padding lies past the end |
| StructLayout.TrimmedBodyIsTidy | src/type.cpp:1033-1047 | its lines go up by offset, and a padding line is not empty and ends where the member line behind it starts, or at the end of the struct |
| StructLayout.BodyListsMembers | src/type.cpp:1017-1050 | the member lines of a body are, in order, those of the members with a used offset in their span, or of all members, each with the first byte, the bit offset and width, or the whole bytes of its member |
| StructLayout.BodyIs | src/type.cpp:926-962 | nothing is printed when trimming is on and no offset of the struct is used, a blob when none of them is in the span of a member, and a body otherwise |
| StructLayout.UsedByteKeepsIff | src/type.cpp:940-946 | a byte, once used, keeps a member if and only if it is in the member's span; for a byte of a member that ends below 2^31, if and only if the member is no bitfield or the byte is before the end of its whole bytes |
| StructLayout.MemberKeptByAllBytesIff | src/type.cpp:940-946 | every byte of a member keeps it if and only if its span covers it; for a member that ends below 2^31, if and only if it is no bitfield that reaches past its whole bytes |
| StructLayout.UsedByteIsShown | src/type.cpp:936-1047 | a used byte that some member holds, within its span, is never printed as padding, and the body is not opaque |
| StructLayout.UsedByteOfBitfieldIsPadding | src/type.cpp:940-946 | a struct where a used byte of a bitfield is printed as padding |
| StructLayout.UsedByteOfEmptyMemberIsPadding | src/type.cpp:942-943 | a struct where a used byte in the span of a member without bytes, which is kept, is printed as padding |
| StructLayout.MemberLinesInOrder | src/type.cpp:1017-1045 | without its padding lines a trimmed body lists the kept members once each, in order, with their own offsets and sizes |
| StructLayout.OmittedIffDropped | src/type.cpp:926-934 | the emitter prints nothing for a struct exactly when the walk drops it |
| StructLayout.WalkFollowsKeptMembers | src/type.cpp:874-885 | the walk visits the types of exactly the members that the emitter keeps, in the same order |
| Wildcard.WildcardMatch | src/database_lifecycle.cpp:27-60 | the backtracking loop terminates and returns the verdict of the recursive scan |
| Wildcard.NewStarSubsumes | src/database_lifecycle.cpp:41-45 | forgetting an earlier star loses nothing: whatever a later restart of it could match, the new star can match from here |
| Wildcard.ScanIsGlob | src/database_lifecycle.cpp:33-59 | from every reachable loop state, on a text without `*`, the scan succeeds exactly when the rest matches or some later restart does |
| Wildcard.StarFreeTextMatches | src/database_lifecycle.cpp:27-60 | on every text without `*` and for every pattern the matcher equals the recursive glob definition |
| Wildcard.MatchIsGlob | src/database_lifecycle.cpp:27-60 | whatever the matcher accepts is a glob match, for all texts and patterns |
| Wildcard.MatchesIffAccepts | src/database_lifecycle.cpp:27-60 | for every text and pattern, stars included, the verdict is that of the recursion in which a star that meets another character commits, and absorbs text up to the leftmost place from which the rest can be followed |
| Wildcard.StarInTextExposed | src/database_lifecycle.cpp:34-38 | for every text with a `*` there is a pattern that globs it and that the matcher refuses |
| Wildcard.StarInPatternExposed | src/database_lifecycle.cpp:34-38 | for every pattern with a `*` there is a text that it globs and that the matcher refuses |
| Wildcard.MatcherIsGlobIffTextStarFree | src/database_lifecycle.cpp:27-60 | the matcher is right on a text for all patterns if and only if the text has no `*` |
| Wildcard.MatcherIsGlobIffPatternStarFree | src/database_lifecycle.cpp:27-60 | the matcher is right for a pattern on all texts if and only if the pattern has no `*` |
| Wildcard.MatchesAnyAllowlistPattern | src/database_lifecycle.cpp:62-69 | true exactly when some non-empty pattern matches; then some non-empty pattern globs the name, and for a name without `*` also conversely |
| AdjacencyGraph.StepKeepsGroups | src/graph.cpp:31-151 | every operation keeps: a parent link names an existing group that lists the node |
| AdjacencyGraph.RunKeepsGroups | src/graph.cpp:31-151 | the same over every run |
| AdjacencyGraph.StepPointsBackIff | src/graph.cpp:126-146 | live nodes that a live group lists keep pointing back to it if and only if no live node that a live group still lists is grouped again |
| AdjacencyGraph.StepKeepsParentsIff | src/graph.cpp:41-48 | live nodes keep belonging to live groups if and only if no removed node is the parent of another live node |
| AdjacencyGraph.StepNestsIff | src/graph.cpp:126-146 | parent links keep pointing to later slots if and only if no group is created with the identifier it is about to get |
| AdjacencyGraph.NestingIsAcyclic | src/graph.cpp:126-137 | while they do, following parent links any number of times never returns to the start |
| AdjacencyGraph.StepKeepsEdgesIff | src/graph.cpp:41-86 | edges keep joining live nodes if and only if a replaced edge gets live ends and a deleted group has no edges |
| AdjacencyGraph.RunStaysSoundIff | src/graph.cpp:31-151 | all five invariants hold after every prefix of a run if and only if every step passes the four guards |
| AdjacencyGraph.SafeRunsStaySound | src/graph.cpp:27-151 | the empty graph has all five invariants; every run from it keeps the first, and every safe run all of them |
| AdjacencyGraph.ReplacedEdgeDangles | src/graph.cpp:77-86 | a short run that leaves a dangling edge by replacing one |
| AdjacencyGraph.DeletedGroupDangles | src/graph.cpp:139-146 | a short run that leaves a dangling edge by deleting a group |
| AdjacencyGraph.WithoutNodeKeepsOthers | src/graph.cpp:44-47 | removing a node erases exactly the edges that touch it |
| AdjacencyGraph.WithoutNodeCounts | src/graph.cpp:44-47 | parallel edges that do not touch the removed node all stay |
| AdjacencyGraph.RemoveUndoesAdd | src/graph.cpp:65-75 | removing an added edge restores the edges as a multiset, and the whole graph when the edge is new |
| AdjacencyGraph.ReplaceTradesOneEdge | src/graph.cpp:77-86 | replacing trades one occurrence of the old edge for the new one, and replacing back undoes it when the new edge was not there |
| AdjacencyGraph.GroupedExactly | src/graph.cpp:126-137 | grouping appends the live members in order to the children, points exactly them at the group, itself included if listed, and changes no other node |
| AdjacencyGraph.OrphanedExactly | src/graph.cpp:139-146 | deleting a group clears the parent of exactly the live children |
| AdjacencyGraph.LiveOfInOrder | src/graph.cpp:130-135 | the adopted members are the live listed ones, in list order and as often as listed |
| AdjacencyGraph.NewSlots | src/graph.cpp:19-35 | a new node is live, no group, and without parent or children; a new group is a live, expanded group |
| AdjacencyGraph.SetExpandedExactly | src/graph.cpp:288-294 | on a live group the collapsed flag becomes the opposite of the argument and nothing else changes; on any other node nothing changes |
| AdjacencyGraph.CreateThenDelete | src/graph.cpp:126-146 | deleting a group just created frees its live members, keeps every edge and other node, and leaves a dead slot |
| GraphObject.GraphImpl.AddNode | src/graph.cpp:31-35 | appends a live node and returns its slot |
| GraphObject.GraphImpl.RemoveNode | src/graph.cpp:182-188 | succeeds exactly on a live node, which then is dead and touched by no edge |
| GraphObject.GraphImpl.AddEdge | src/graph.cpp:207-213 | succeeds exactly when both ends are live |
| GraphObject.GraphImpl.RemoveEdge | src/graph.cpp:220-225 | succeeds exactly when the edge is there, and removes its first occurrence |
| GraphObject.GraphImpl.ReplaceEdge | src/graph.cpp:227-233 | succeeds exactly when the edge is there, and overwrites its first occurrence without checking the new ends |
| GraphObject.GraphImpl.CreateGroup | src/graph.cpp:275-279 | appends a group slot and adopts the live members |
| GraphObject.GraphImpl.DeleteGroup | src/graph.cpp:281-286 | succeeds exactly on a live group, and leaves its edges in place |
| GraphObject.GraphImpl.SetGroupExpanded | src/graph.cpp:288-294 | succeeds exactly on a live group and changes only its collapsed flag |
| GraphObject.GraphImpl.Clear | src/graph.cpp:148-151 | leaves the empty graph |
| GraphObject.GraphImpl.PathExists | src/graph.cpp:102-124 | true exactly when the ends are equal, or both live and joined by a chain of edges through node slots; the search terminates |
| GraphObject.DistinctFits | src/graph.cpp:106-121 | a queue of distinct node slots is no longer than the number of slots, which bounds the search |
| GraphObject.SettledQueueMissesTarget | src/graph.cpp:111-123 | once every queued node is explored without meeting the target, no chain from the source reaches it |
| GraphObject.SoundChainsAreLive | src/graph.cpp:102-124 | while edges join live nodes, every chain the search follows stays on live nodes |
| TypedCodec.DecodeEncode | src/data.cpp:54-110 | the little-endian bytes of a number that fits decode to it |
| TypedCodec.EncodeDecode | src/data.cpp:54-110 | bytes decode to a number that fits and encodes to the same bytes |
| TypedCodec.LittleEndianAt | src/data.cpp:54-110 | stored byte k has weight 256^k |
| TypedCodec.FirstNul | src/data.cpp:227-228 | the index of the first zero byte, or the length |
| TypedReads.TypedefsDoNotMatter | src/data.cpp:208-210 | typedefs change neither what a read returns nor what a write stores |
| TypedReads.ByteArrayReads | src/data.cpp:222-242 | an array of one-byte integers reads as text if and only if a non-empty prefix of characters 0x20 to 0x7E runs up to a NUL or the end, and then as that prefix; otherwise as its bytes |
| TypedReads.ScalarReads | src/data.cpp:275-335 | a number or pointer of a fixed width reads as the one whose bytes, low byte first and in two's complement, are in memory |
| TypedReads.ScalarReadFails | src/data.cpp:203-335 | such a read fails when it is too deep or has no size, then when its width is not fixed, then when its first byte is not loaded |
| TypedReads.ReadSucceedsIff | src/data.cpp:200-343 | a read succeeds if and only if each number in it has a fixed width and a loaded first byte, or is an integer of more than eight bytes; each element of an array has a size and an allowed address; and the nesting stays within 64 levels |
| TypedReads.ArrayReads | src/data.cpp:244-266 | an array of other elements reads as the values at its elements' addresses, in order |
| ElementSequences.WriteSeqSucceedsIff | src/data.cpp:404-421 | an element loop succeeds exactly when each element's own address is allowed and its own write succeeds |
| ElementSequences.FailedWriteStops | src/data.cpp:404-421 | a failing loop wrote the elements before the first failing one, and of that one only what its own write left |
| ElementSequences.ReadSeqReadsBack | src/data.cpp:250-265 | a reader that inverts the writer on single elements inverts it on whole sequences |
| ElementSequences.ReadSeqSucceedsIff | src/data.cpp:250-265 | an element loop reads exactly when each element does, and then gives their values in order |
| ElementSequences.ReadSeqWritesBack | src/data.cpp:404-421 | writing back a sequence that was read succeeds, and gives the same bytes exactly when each element does |
| TypedLaws.EncodedLength | src/data.cpp:345-502 | a write stores at most the type's size in bytes, and exactly that when it succeeds |
| TypedLaws.WriteFrame | src/data.cpp:345-502 | whatever the outcome, no byte outside the type's range changes |
| TypedLaws.FailedWriteLength | src/data.cpp:345-502 | a failed write lays down exactly the bytes before its stop: none for a scalar or a value of the wrong form, else the elements before the first refused one and then as far as that one gets |
| TypedLaws.FailedWriteFrame | src/data.cpp:345-502 | so a failed write changes nothing from its stop on |
| TypedLaws.FailedArrayWriteStops | src/data.cpp:404-421 | a failed array write stops exactly where its first refused element does, at that element's start when it is a scalar; nothing from there on changes, and everything before that element is as the shorter successful write leaves it |
| TypedLaws.IntegerWriteIff | src/data.cpp:459-490 | an integer write succeeds exactly when the width is 1, 2, 4 or 8 and the number, of either kind, is in the target's range |
| TypedLaws.WriteSucceedsIff | src/data.cpp:345-502 | a write succeeds if and only if the value has the type's shape, the last element's address is allowed, and the nesting stays within the depth bound |
| TypedLaws.WriteThenRead | src/data.cpp:200-502 | reading at the address and type of a successful write returns the value's normal form, for all types, nested arrays included |
| TypedLaws.PrintableTextReadsBack | src/data.cpp:227-237 | a non-empty printable string that fits reads back as the same string, NUL-padded |
| TypedLaws.BytesReadBack | src/data.cpp:239-241 | the bytes read back from a byte array are always the bytes written, as bytes or beside a string |
| TypedLaws.RefusesBack | src/data.cpp:302-318 | where the type holds an integer wider than eight bytes, outside empty arrays, writing back what was read fails before the first byte |
| TypedLaws.ReadThenWrite | src/data.cpp:200-502 | otherwise it succeeds, and stores the bytes that were there exactly when the value is faithful |
| TypedLaws.WriteBackSucceedsIff | src/data.cpp:200-502 | writing back what was read succeeds if and only if the type holds no such integer |
| TypedLaws.WriteBackUnchangedIff | src/data.cpp:221-242 | it leaves memory unchanged if and only if it is refused or no string in the value was followed by a non-zero byte after its NUL |
| TypedDatabase.OverflowGuardIsExact | src/data.cpp:405-413 | the two wrap-around tests pass exactly when the unbounded address does not exceed 2^64-1 |
| TypedDatabase.ElementAddress | src/data.cpp:405-414 | the guarded address is the exact one, or an error |
| TypedDatabase.Database.WriteUnsignedFixed | src/data.cpp:87-110 | stores the unsigned form when the value fits, else changes nothing |
| TypedDatabase.Database.WriteSignedFixed | src/data.cpp:112-135 | stores the two's complement form when the value fits, else changes nothing |
| TypedDatabase.Database.WriteInteger | src/data.cpp:459-490 | the branches on sign and value kind store what the integer encoding gives |
| TypedDatabase.Database.ReadTyped | src/data.cpp:200-343 | the recursive reader with its guarded loop returns what the reading specification gives |
| TypedDatabase.Database.ReadElements | src/data.cpp:248-266 | the element loop reads the elements in order and stops at the first error |
| TypedDatabase.Database.ReadElement | src/data.cpp:261 | one element is read one level deeper |
| TypedDatabase.Database.WriteTyped | src/data.cpp:345-502 | the recursive writer with its guarded loop leaves memory and status as the encoding specification gives, also on failure |
| TypedDatabase.Database.WriteElements | src/data.cpp:404-422 | the element loop writes the elements in order and stops at the first error |
| TypedDatabase.Database.WriteElement | src/data.cpp:405-420 | one guarded element write adds its bytes after those written so far |
| MicrocodeBuilder.OpcodesOneToOne | src/decompiler.cpp:325-377 | each opcode parses back to itself, and no other SDK code parses to it |
| MicrocodeBuilder.OpcodesAre | src/decompiler.cpp:325-340 | the SDK opcode for moves, arithmetic, memory access and bit operations |
| MicrocodeBuilder.ShiftAndFloatOpcodesAre | src/decompiler.cpp:338-346 | the SDK opcode for shifts and floating point |
| MicrocodeBuilder.OperandBuildsIff | src/decompiler.cpp:539-696 | an operand builds at a depth exactly when it is well formed and two per level of nesting still fits under 32 |
| MicrocodeBuilder.InstructionBuildsIff | src/decompiler.cpp:481-537 | the same for a nested instruction |
| MicrocodeBuilder.SixteenLevels | src/decompiler.cpp:1578-1582 | from both kinds of caller, well-formed trees build exactly up to sixteen levels of nested instruction |
| MicrocodeBuilder.BuiltOperandIs | src/decompiler.cpp:539-696 | for each kind, the SDK body that is built, its size and its mark: a register pair has two unmarked registers, low then high, of equal sizes that add up to the width; a signed number is stored in the same 64 bits; a helper name ends at its first NUL |
| MicrocodeBuilder.BuiltInstructionIs | src/decompiler.cpp:481-537 | a nested instruction has the SDK opcode, its three operands in their places, built one level deeper, and the floating-point mark |
| MicrocodeBuilder.OperandParsesIff | src/decompiler.cpp:381-448 | an SDK operand parses if and only if it and all operands below it are of a known kind, pairs are pairs of registers, and opcodes are known |
| MicrocodeBuilder.InstructionParsesIff | src/decompiler.cpp:450-471 | the same for instructions |
| MicrocodeBuilder.NullBodiesParse | src/decompiler.cpp:394-435 | a null body parses as zero, as an empty name, or as no instruction |
| MicrocodeBuilder.BuiltOperandParses | src/decompiler.cpp:381-448 | parsing a built operand gives it back, with signed numbers in unsigned form, helper names as C strings, and default sizes where no width was given |
| MicrocodeBuilder.BuiltInstructionParses | src/decompiler.cpp:450-471 | the same for instructions, with opcode and floating-point flag |
| MicrocodeBuilder.ParsedOperandRebuilds | src/decompiler.cpp:381-696 | a parsed operand builds again exactly when no helper name starts with a NUL, and then gives the same operand |
| MicrocodeBuilder.ParsedInstructionRebuilds | src/decompiler.cpp:450-537 | the same for instructions |
| MicrocodeBlock.AnchorPlaces | src/decompiler.cpp:962-976 | inserting after the anchor of a policy puts an instruction last, first, or just before the last |
| MicrocodeBlock.PlaceIs | src/decompiler.cpp:962-976 | the placed instruction is last, first, or in front of the last one, and without it the block is as before |
| MicrocodeBlock.RemoveUndoesPlace | src/decompiler.cpp:978-995 | removing a placed instruction restores the block |
| MicrocodeBlock.PlaceAllIsArranged | src/decompiler.cpp:2662-2676 | placing a list one by one appends it, prepends its reverse, or puts it before the last instruction, by policy; on an empty block the first emitted one stays last under BeforeTail |
| MicrocodeBlock.ReverseAt | src/decompiler.cpp:2662-2676 | in the reverse of a list the k-th element is the k-th from the end |
| MicrocodeBlock.LowerSucceedsIff | src/decompiler.cpp:2586-2636 | an instruction can be emitted exactly when it is a no-operation, or is well formed with operands of at most sixteen levels |
| MicrocodeBlock.LoweredIs | src/decompiler.cpp:2577-2645 | a no-operation is emitted with three empty operands, any other instruction with its opcode and its operands, built at depth zero; both keep the floating-point mark |
| MicrocodeBlock.LoweredParses | src/decompiler.cpp:2497-2507 | the emitted instruction always parses, and to the instruction that was asked for if and only if that is not a no-operation with operands or marks |
| MicrocodeBlock.MicrocodeContext.Reposition | src/decompiler.cpp:978-995 | moves the appended instruction to its policy's place, or leaves it removed when the insertion fails |
| MicrocodeBlock.MicrocodeContext.EmitAndPlace | src/decompiler.cpp:2638-2654 | an emitted instruction is placed and tracked under a new identity, or nothing changes |
| MicrocodeBlock.MicrocodeContext.EmitInstruction | src/decompiler.cpp:2577-2656 | success puts the built instruction at its policy's place and tracks it; failure leaves block and tracked instruction alone |
| MicrocodeBlock.MicrocodeContext.EmitNoop | src/decompiler.cpp:2553-2571 | the same for a no-operation, and remembers that one was emitted |
| MicrocodeBlock.MicrocodeContext.EmitInstructions | src/decompiler.cpp:2662-2676 | stops at the first instruction that cannot be emitted; the block is the old one with those before it arranged by policy, and the last of them is tracked |
| MicrocodeBlock.MicrocodeContext.InsertCall | src/decompiler.cpp:941-960 | inserts a helper call at its policy's place and tracks it, or changes nothing |
| MicrocodeBlock.MicrocodeContext.RemoveLastEmitted | src/decompiler.cpp:2509-2522 | removes the tracked instruction and stops tracking, or reports that there is none |
| MicrocodeBlock.MicrocodeContext.RemoveInstructionAtIndex | src/decompiler.cpp:2524-2547 | removes exactly the instruction at a valid index, and stops tracking it if it was the tracked one |
| CallLayout.BitTestIsPowerOfTwo | src/decompiler.cpp:1226 | the bit test accepts exactly the powers of two |
| CallLayout.StackAlignmentIsLeast | src/decompiler.cpp:1206-1211 | the default alignment is the least power of two that is at least 8 and at least the size, capped at 64 |
| CallLayout.StackAlignmentForSize | src/decompiler.cpp:1206-1211 | the doubling loop computes the default alignment |
| CallLayout.AutoSlot | src/decompiler.cpp:1936-1954 | a slot is the cursor rounded up to the alignment, or an error when the size is unknown |
| CallLayout.BuildCallArguments | src/decompiler.cpp:1195-1954 | checks the options and gives the locations that the layout specification gives |
| CallLayout.AssignLocations | src/decompiler.cpp:1233-1954 | the loop over the arguments carries the cursor from one automatic slot to the next and stops at the first argument of unknown size |
| CallLayout.AssignFits | src/decompiler.cpp:1933-1954 | each automatic slot is aligned and starts less than one alignment after the end of the previous automatic slot; explicit locations are kept |
| CallLayout.SlotsAreDisjoint | src/decompiler.cpp:1933-1954 | an earlier automatic slot ends at or before the start of every later one |
| CallLayout.ExplicitArgumentsDoNotMatter | src/decompiler.cpp:1933-1935 | dropping the explicitly placed arguments changes neither success nor any automatic slot |
| CallLayout.LocationsAreSlots | src/decompiler.cpp:1213-1231 | every accepted call has non-negative automatic slots at multiples of a power of two |
| CallLayout.AutomaticSlotIs | src/decompiler.cpp:1933-1954 | an automatic slot is the first multiple behind the previous one, or from the start on, of the given alignment, or else of the least power of two that is at least 8 and at least the size of the type, or of the operand, capped at 64 |
| CallLayout.RequestedPlacesStay | src/decompiler.cpp:1933-1935 | arguments without a location get a slot when automatic locations are on; all others keep what they ask for |
| CallLayout.AcceptedIff | src/decompiler.cpp:1213-1231 | a call is accepted if and only if its start is not negative, its alignment is a power of two, where they are given, and each automatic argument has a size |
| CallLayout.ExplicitSlotSafeIff | src/decompiler.cpp:1933-1954 | an explicit stack range shares no byte with an automatic slot, whatever the arguments, if and only if it ends at or before the first automatic slot |
| EventRouting.UnsubscribedKeeps | src/ui.cpp:795-806 | removing a token from a listener keeps all other subscriptions in order, and the hook exactly while some are left |
| EventRouting.SubscribedAllAppends | src/ui.cpp:787-793 | successive subscriptions append with consecutive tokens and keep the listener hooked |
| EventRouting.UnsubscribeIsExact | src/ui.cpp:1277-1306 | unsubscribing removes exactly the subscriptions that the token owns, all thirteen for a generic token, and its route |
| EventRouting.StepKeepsHub | src/ui.cpp:787-878 | each step keeps the tokens increasing and in range, the hooks exact, and the routes disjoint |
| EventRouting.RunsAreOrderly | src/ui.cpp:787-878 | the same holds after every run that keeps the counters below 2^62 |
| EventRouting.GrantedTokensAreNew | src/ui.cpp:862-872 | a granted token was never granted before and lies in the range of its kind |
| EventRouting.FirstTokens | src/ui.cpp:844-872 | the first tokens are 1, 2^62 + 1 and 2^63 + 1, and at the start nothing is subscribed |
| EventRouting.UnsubscribeUndoesOnEvent | src/ui.cpp:1097-1306 | unsubscribing a new generic token gives both listeners their earlier subscriptions back, and the routes |
| EventRouting.UnsubscribeUndoesSubscribe | src/ui.cpp:884-1306 | so does unsubscribing a new plain token |
| EventRouting.UnsubscribedIsGone | src/ui.cpp:1277-1306 | after unsubscribing a granted token, unsubscribing it again reports not-found |
| EventRouting.GoneForever | src/ui.cpp:1277-1306 | and so it stays after every later run |
| EventRouting.OnEventMakesWholeBundle | src/ui.cpp:1097-1259 | a generic subscription has thirteen live inner subscriptions, all to its handler |
| EventRouting.RunSparesBundle | src/ui.cpp:1097-1306 | a run that unsubscribes neither it nor its inner tokens keeps them all live |
| EventRouting.StepKeepsBundleIff | src/ui.cpp:1097-1306 | a step keeps the thirteen subscriptions whole if and only if it unsubscribes neither the generic token nor an inner one |
| EventRouting.RunKeepsBundleIff | src/ui.cpp:1097-1306 | a run leaves them whole if and only if each of its steps spares them |
| EventRouting.RunSparesSingle | src/ui.cpp:874-878 | a run that does not unsubscribe a plain subscription keeps it live, also when bundles are removed |
| EventRouting.RunKeepsSingleIff | src/ui.cpp:874-878 | a run leaves a plain subscription live if and only if it does not unsubscribe its token |
| EventRouting.EventSubscriptionLife | src/ui.cpp:1097-1306 | from its start through any such run the bundle is whole; its removal succeeds, removes exactly its thirteen subscriptions, and lasts |
| EventRouting.SingleSubscriptionLife | src/ui.cpp:874-878 | the same life for a user-interface or view subscription |
| EventHub.HandlersOfKept | src/ui.cpp:808-825 | a handler all of whose subscriptions were removed is not called any more |
| EventHub.HandlersOfOthers | src/ui.cpp:808-825 | a handler none of whose subscriptions was removed is called as often as before |
| EventHub.OnEventIsHeard | src/ui.cpp:1104-1250 | a generic subscription puts its handler last, once, among the callbacks of each of the eight notifications of the user interface and the five of the views, on their own listener, and leaves those of every other notification alone |
| EventHub.SubscriptionIsHeard | src/ui.cpp:787-817 | a plain subscription does so for its own notification only |
| EventHub.EventListener.Subscribe | src/ui.cpp:787-793 | appends the subscription under the next token and hooks the listener |
| EventHub.EventListener.SubscribeAll | src/ui.cpp:1101-1250 | subscribes one handler to a list of notifications and returns consecutive tokens |
| EventHub.EventListener.Unsubscribe | src/ui.cpp:795-806 | erases the first subscription with the token, unhooks when none is left, and reports whether it was there |
| EventHub.EventListener.Matching | src/ui.cpp:808-817 | collects the handlers of the notification in subscription order |
| EventHub.EventSubscriptions.OnUiNotification | src/ui.cpp:884-890 | subscribes on the user-interface listener and returns its token |
| EventHub.EventSubscriptions.OnViewNotification | src/ui.cpp:1086-1095 | subscribes on the view listener and returns its token shifted into the view range |
| EventHub.EventSubscriptions.SubscribeInner | src/ui.cpp:1101-1250 | the thirteen inner subscriptions go to the right listeners, and their tokens are returned in order with the view ones shifted |
| EventHub.EventSubscriptions.OnAnyEvent | src/ui.cpp:1097-1259 | refuses an empty callback, else makes the thirteen subscriptions and a route under a new generic token |
| EventHub.EventSubscriptions.UnsubscribeSingle | src/ui.cpp:874-878 | routes a token to its listener by range |
| EventHub.EventSubscriptions.UnsubscribeToken | src/ui.cpp:1277-1306 | acts and answers as the step of the routing specification |
| CallbackRegistry.UnsubscribeIsExact | src/decompiler.cpp:2288-2302 | removes the token from whichever map holds it, keeps every other callback, and succeeds exactly when some map holds it |
| CallbackRegistry.StepKeepsOrderly | src/decompiler.cpp:2180-2302 | the bridge is installed exactly while some map is non-empty, tokens are positive and issued, and no token is in two maps |
| CallbackRegistry.RunsStayOrderly | src/decompiler.cpp:2180-2302 | the same over every run |
| CallbackRegistry.RunKeepsGone | src/decompiler.cpp:2288-2302 | a removed token is never found again |
| CallbackRegistry.TokenLives | src/decompiler.cpp:2180-2302 | a registered callback stays in its map through every run that does not unsubscribe its token |
| CallbackRegistry.SubscriptionLife | src/decompiler.cpp:2180-2302 | a callback stays registered and the bridge installed until its token is unsubscribed, which succeeds once, removes only it, and then reports not-found for good |
| CallbackRegistry.FreshIsOrderly | src/decompiler.cpp:45-52 | the registry starts without callbacks or bridge, and its first token is 1 |
| CallbackRegistry.RunsFromStart | src/decompiler.cpp:2180-2302 | every run from the start keeps the invariants |
| CallbackRegistry.RefusedIff | src/decompiler.cpp:2180-2195 | a subscription is refused without a callback, then without a decompiler, then when the bridge has to be installed and cannot be, which is only while no callback is registered; a refusal changes nothing |
| CallbackRegistry.DecompilerCallbacks.EnsureInstalled | src/decompiler.cpp:2128-2135 | installs the bridge at most once and reports a failed installation |
| CallbackRegistry.DecompilerCallbacks.On | src/decompiler.cpp:2180-2286 | checks callback, decompiler and bridge in that order, then registers under the next token |
| CallbackRegistry.DecompilerCallbacks.EraseFromAnyMap | src/decompiler.cpp:80-106 | erases the token from the first map that holds it |
| CallbackRegistry.DecompilerCallbacks.Unsubscribe | src/decompiler.cpp:2288-2302 | acts and answers as the step of the registry specification, removing the bridge with the last callback |
| ItemRanges.MergePositions | examples/plugin/abyss_port_plugin.cpp:507-524 | the merged ranges cover exactly the cells of the given positions, whatever their order and length; for single cells recorded once each they are in order and no two of them touch |
| ItemRanges.RangesAreCanonical | examples/plugin/abyss_port_plugin.cpp:513-524 | two such lists of ranges with the same cells are equal, so the merge is the only answer |
| ItemRanges.SortSorts | examples/plugin/abyss_port_plugin.cpp:508-512 | sorting gives the same positions, as often as before, by line and column |
| ItemRanges.RecordLine | examples/plugin/abyss_port_plugin.cpp:481-502 | the scan of a line records each visible character with an item once, at its visible column |
| ItemRanges.RebuildMap | examples/plugin/abyss_port_plugin.cpp:472-526 | for each address the map covers exactly its visible cells below the header, as ranges no two of which can be joined |
| ItemRanges.VisibleInOrder | examples/plugin/abyss_port_plugin.cpp:482-502 | the visible characters of a line are its pieces that are no tags, in order |
| MachOScan.CommandsAreContiguous | examples/loader/sep_firmware_loader.cpp:281-292 | the visited commands start after the header, follow each other without gaps inside the file, and end at the count or at the first bad command |
| MachOScan.ReadsAreLittleEndian | examples/loader/sep_firmware_loader.cpp:154-166 | the reads give the number whose bytes, low byte first, are in the image, or zero past its end |
| MachOScan.ImageCommandsAre | examples/loader/sep_firmware_loader.cpp:277-283 | the commands start at byte 32, are at most as many as byte 16 says, and hold their number and size in their first eight bytes |
| MachOScan.SegmentFields | examples/loader/sep_firmware_loader.cpp:715-721 | a segment holds its memory address and size and its file offset and size at the offsets 24, 32, 40 and 48 |
| MachOScan.SegmentsInOrder | examples/loader/sep_firmware_loader.cpp:712-724 | the segments are those of the commands 0x19 of the given sizes, in command order |
| MachOScan.LargestEndIsMaximum | examples/loader/sep_firmware_loader.cpp:289 | the computed extent is an upper bound of all segment ends modulo 2^64, and zero or one of them |
| MachOScan.CalcMachOFileExtent | examples/loader/sep_firmware_loader.cpp:273-294 | the loop returns the largest end of the segment commands of at least 56 bytes, or 0 for other files |
| MachOScan.ParseMachO | examples/loader/sep_firmware_loader.cpp:694-770 | the loop collects the segments of the commands of at least 72 bytes, in order |
| MachOScan.ExtentAgainstParse | examples/loader/sep_firmware_loader.cpp:273-294 | the extent is the maximum over the parsed segments and the short ones, so it equals that over the parsed segments exactly when no short one ends later, in particular when there is none |
| MachOScan.FindLcSepSlide | examples/loader/sep_firmware_loader.cpp:773-791 | returns the field of the first wide enough SEP command, in 64-bit and 32-bit images |
| MachOScan.FirstSlideIs | examples/loader/sep_firmware_loader.cpp:782-789 | it is the number eight bytes into the first command 0x80000001 of at least 16 bytes |
| MachOScan.ShortSegmentDisagrees | examples/loader/sep_firmware_loader.cpp:286 | an image whose only segment command is 56 bytes has an extent but no parsed segment |
| AddressTags.MakeAddrTag | src/lines.cpp:56-70 | the tag is the two marker bytes and sixteen hexadecimal digits of the 32-bit index |
| AddressTags.DecodeAddrTag | src/lines.cpp:72-99 | the digit loop returns the low 29 bits of the number at the position, or -1 when it holds no tag |
| AddressTags.HexRoundTrip | src/lines.cpp:86-94 | parsing the digits of a number that fits gives the number |
| AddressTags.TagBytes | src/lines.cpp:60-69 | the bytes of a tag: 1, 0x28, and the characters 0 to 9 and A to F for each four bits of the 32-bit index, high ones first |
| AddressTags.ParsedDigits | src/lines.cpp:86-94 | up to sixteen characters parse if and only if all are hexadecimal digits of either case, and then to the number whose digits they are |
| AddressTags.DecodesIff | src/lines.cpp:72-99 | -1 exactly for a text that is too short, other marker bytes, or a character that is no digit; else the low 29 bits of the number in the digits |
| AddressTags.TagDecodes | src/lines.cpp:56-99 | inside any text a tag decodes to the low 29 bits of its index |
| AddressTags.TagRoundTripIff | src/lines.cpp:96-98 | it decodes to the index itself if and only if the index is in [0, 2^29) |

## Left out

- The SDK: decoding, decompiling, type parsing and printing, hooks, widgets. Its calls are
  parameters or plain contracts: byte memory, list insertion after an anchor, append on emit,
  operand constructors that store their arguments.
- Types: a name stands for one declaration wherever it occurs; type text, comments and column
  alignment of the rendered declarations. Lines are byte intervals with a padding flag.
- `render_ordinal_declarations` first tries an SDK printer when no option is set
  (src/type.cpp:1391-1406); only the formatter behind it is modelled. `TypeGraphRenderer` is not.
- TypeWalk.RunIsSound: with a depth limit only "listed implies within the limit" is stated; the
  converse is false for positive limits, and DepthLimit.CompleteForContextIff says exactly for which
  libraries and limits it holds.
- WalkOrder.NameFollowsItsMembers: requires that the name is on no cycle; inside a cycle the listing
  starts where the walk enters it.
- StructLayout.TrimmedBodyPartitions: requires members sorted by offset and inside the struct, which
  the SDK's details of a struct satisfy and the emitter does not check; the walk lemmas need neither.
- Graph handles that were moved from (every call reports "not initialized"), layouts, viewers, flow
  charts, and the listing calls `successors`, `predecessors`, `visible_nodes` and `edges`.
- TypedLaws.WriteThenRead: requires the addressed range to be mapped, since the SDK ignores writes to
  and returns 0xFF for absent bytes.
- TypedLaws.WriteBackUnchangedIff: requires the range to be mapped, for the same reason.
- Floating-point values and short reads. Values are stored low byte first.
- Addresses of single bytes inside one access are not wrapped at 2^64.
- MicrocodeBlock.MicrocodeContext.constructor: instruction pointers are numbers, and the block is a
  sequence of numbered instructions instead of a linked list; null handles and missing code
  generators are not modelled. The floating-point mark, set after emission in the source, is part
  of the emitted instruction.
- CallLayout.BuildCallArguments: only sizes, alignment and locations of arguments; their operands,
  types and flags, the checks of explicit locations, and wrap-around of the 64-bit cursor are not
  part of it.
- CallLayout.AssignLocations: the same checks of each argument, which can also stop the loop.
- EventHub.EventListener.SubscribeAll: one loop over the notification lists stands for the thirteen
  subscriptions that the source writes out one by one.
- EventRouting.RunsAreOrderly: runs are assumed to keep each counter below 2^62, where the token
  ranges would meet; the decompiler's counter is unbounded.
- Threads and locks (each locked section is one step) and callbacks that change a registry while it
  dispatches. Handlers are numbers; what they do with an event is not modelled.
- ItemRanges.SortSorts: `std::sort` is modelled by an insertion sort; equal positions are identical
  in all compared fields, and single cells recorded once have none.
- ItemRanges.RebuildMap: a line is given as its tags and visible characters with their items; the two
  early returns on a failed query, which leave the map empty, are not modelled.
- MachOScan.ParseMachO: segment names and protection, sections, entry points, symbols and the image
  base.
- AddressTags.DecodeAddrTag: wrap-around of the position near 2^64.
- Enum-to-enum maps other than opcodes, flag encoders, address scans, comment slots, and debugger and
  Lumina calls are not modelled.
