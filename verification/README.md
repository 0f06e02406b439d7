# TOAS journal: verified model

TOAS keeps all of its state in an append-only event journal.  The journal's message events form
a forest (each message names its parent, `n0` being the virtual root); every other event is a
sidecar record that refers to messages.  A reader sees a message through its *lineage*: the
(role, content) sequence from the root down to it.

This project models that journal and proves what its operations promise about it.

- **Graph transformations keep lineages.**  `Salvage`, `SalvageRepair` and `SalvageCandidates`
  repair a journal in which subtrees were duplicated below a stale root, and `SalvageTwice` shows
  what a second repair can lose; `PrefixCollapse` folds a journal into a trie; `Projection`, `Stitch`
  and `Anchors` merge several journals by renaming ids and identifying a common prefix.
- **The journal as storage.**  `MessageWriter` numbers and parents new messages; `IndexRecords`
  and `JournalFiles` are the binary index kept beside a journal file; `JournalDisk`,
  `JournalDirectory` and `Rollover` add numbered segments, seals, interleaving and interruption;
  `JournalLock` is the re-entrant lock of many processes and threads.
- **Text and stream codecs.**  `Transcript`, `TranscriptCodec`, `TranscriptMargins`,
  `TranscriptRoundTrip` and `TranscriptConverse` print and parse transcripts, and `TranscriptReading`
  says what the format means by the lines of a text alone; `StreamEscaper`, `EscaperAgreement` and
  `StreamGuard` process a stream chunk by chunk.
- **Fast or derived views.**  `BestPrefix` chooses a head, `HeadStats` memoises statistics,
  `Grants` folds scoped permissions.

`Journal`, `Text` and `TextLines` hold the shared data model, string orders and line splitting.

## Reading the model

A journal is a `seq<Event>`.  `Journal.IsWalk(byId, id, path)` says that `path` is the lineage of
`id`; a message is `Rooted` when it has one, so `Rooted` of every message is acyclicity, with no
appeal to log positions.  `Lineage` is what that walk reads.  This matters for salvage, whose
output may list a canonical parent *after* its child.

Methods follow the loops of the program and are proved against specification functions or
predicates; the main results are lemmas about those.  What the main operations leave is also stated
a second time, by what it means for a caller, in predicates that no loop uses
(`Salvage.IsEquivalence`, `JournalFiles.LocateAll`, `MessageWriter.AllWritten`,
`HeadStats.Describes`, `TranscriptReading.Reads`).  Where a plain claim fails, the project states
the condition under which it holds, in both directions.

- Salvage is proved for journals with unique ids and no cycle of parents.  It keeps the lineage of
  every message it writes, nothing it writes dangles, and what it writes can be salvaged again.  It
  writes every message it does not collapse exactly when each is `Attached`: kept from the start,
  or with a parent that is `n0`, kept from the start, matched by a counterpart, or logged earlier
  (`SalvageRepair.ConservedExactly`).  Parents that come first (`OrderedForest`) are enough, but
  the journals salvage writes need not have them: a re-parented message can come before its new
  parent.  `SalvageTwice.SecondSalvageLoses` gives a family of journals in which a second salvage
  therefore drops a message the first one kept, both salvages being of the candidate the program
  chooses.
- `ReadySources` (distinct source ids, intact sources, no message called `n0`, no `:` in a local
  id) is needed for qualification, which leaves the parent `n0` unrenamed.
- A message write extends and re-stamps whatever index it finds.  `JournalFiles.WriteReadsRight`
  gives the exact condition for the index to read right afterwards, and
  `JournalFiles.InterruptedSealThenWrite` the inputs on which it does not: a seal stopped just
  after dropping the hot index, then a message write.  Hence `Rollover.EveryCarefulRunReads` speaks
  of runs in which every message write begins with the hot index in step; reading the logical index
  after an interruption brings it there (`Rollover.ReadingRestores`), and
  `Rollover.InterruptedRunReadsWrong` is a run without that care whose last reading is wrong.  The
  only limits are the record format's: storable ids, at most 2^32 lines, fewer than 2^64 bytes.
- Unescaping also strips a backslash the author wrote; `Transcript.EscapeRoundTrip` says exactly
  when it does no harm.
- `TranscriptConverse.RoundTripIffFaithful` characterises the transcripts that survive printing
  and parsing.  A content may not hold a line break other than a newline, because the parser
  splits lines with Python's `splitlines()`, which also breaks at `\r`, `\v`, `\f`,
  `\x1c`-`\x1e`, `\x85`, U+2028 and U+2029.
- A projected transcript is compared with its lineage stripped, so what counts is `Fits`: newlines are
  the only breaks, every raw line with the marker prefix is a marker line, no telemetry comment comes
  first, and markers keep being markers when outer white space is stripped.  Looking at the stripped
  content alone is not enough (`TranscriptConverse.CleanCoreUnfit`).
- A seal starts the numbering again at n1, so `MessageWriter.EveryWriteRun` speaks of each source, and
  ids repeat across the logical history as soon as two sources hold messages.
- The overrun guard may stop early when its held text begins in the middle of a line.
  `StreamGuard.GuardStream` says, in terms of the chunks alone, at which chunk it stops and that the
  answer is then the text up to its first user turn exactly unless `MidLine` holds there;
  `StreamGuard.StopsInMidLine` is a stream on which it is not.

## Model

| member | source | states |
|---|---|---|
| Journal.WalkLineage | src/toas/graph.py:1289-1297 | Following parents from a head and reversing yields its unique lineage; an unknown head yields nothing |
| Journal.ByIdLatest | src/toas/operator_api.py:739-746 | Lookup by id finds the last message logged under the id |
| Journal.WalkUnique | src/toas/graph.py:1289-1297 | A message has at most one lineage |
| Journal.WalkPrefix | src/toas/graph.py:1289-1297 | Every ancestor's lineage is the corresponding prefix of the lineage |
| Journal.WalkNoRepeats | src/toas/graph.py:1289-1297 | A lineage repeats no message, so it is no longer than the journal |
| Journal.OrderedForestAcyclic | src/toas/graph.py:1289-1297 | With parents `n0` or earlier every lineage walk ends |
| Salvage.DescendantIds | src/toas/history_salvage.py:173-187 | The recursive walk gathers exactly the messages at or below the start, listed in log order |
| Salvage.DescendantWalk | src/toas/history_salvage.py:181-184 | Adds exactly the subtree to the set it is given |
| Salvage.MapDuplicateSubtree | src/toas/history_salvage.py:279-292 | After mapping a duplicate subtree, every message in it that has a counterpart is mapped to it, and every entry of the map is a message's counterpart |
| Salvage.BuildEquivalenceMap | src/toas/history_salvage.py:267-292 | What the nested walks over shared state leave: every start mapped to the selected one, every kept id to itself, and any other id mapped exactly when its parent is and exactly one logged message has the parent's image as its parent and the same role and content, namely to that message |
| Salvage.EquivalenceUnique | src/toas/history_salvage.py:267-306 | There is only one map of that kind |
| Salvage.CanonHomomorphism | src/toas/history_salvage.py:267-306 | The counterpart lies in the kept set, reads the same role and content, is the identity on kept messages, and commutes with parent below the starts |
| Salvage.CanonIdempotent | src/toas/history_salvage.py:267-306 | Mapping twice is mapping once; nothing kept is collapsed; whatever is collapsed lies below a duplicate start |
| Salvage.CanonStart | src/toas/history_salvage.py:274-292 | Only messages at or below a start have counterparts |
| Salvage.CanonLineage | src/toas/history_salvage.py:201-264 | In the repaired journal a counterpart reads what its duplicate read, less the stale root |
| Salvage.SalvagePreservesLineage | src/toas/history_salvage.py:201-264 | Every surviving message keeps its lineage, less the stale root exactly when the lineage went through a duplicate start; hence no cycle |
| SalvageRepair.RepairMessage | src/toas/history_salvage.py:226-251 | One message of the loop: emitted, re-parented or dropped as specified, and the preserved set updated |
| SalvageRepair.RepairOne | src/toas/history_salvage.py:220-260 | One event of the loop, message or sidecar |
| SalvageRepair.RepairEvents | src/toas/history_salvage.py:201-264 | The loop growing the output, the preserved ids and the counters equals its fold |
| SalvageRepair.PreservedOrigin | src/toas/history_salvage.py:215-251 | An id preserved before its message is logged was preserved from the start |
| SalvageRepair.PreservedNotCollapsed | src/toas/history_salvage.py:215-251 | At every moment only logged messages are preserved and none of them is collapsed |
| SalvageRepair.EmittedIffNotCollapsed | src/toas/history_salvage.py:226-251 | The loop writes exactly the uncollapsed messages if and only if each of them is attached: preserved from the start, or its parent is `n0`, preserved from the start, matched by a counterpart, or logged earlier |
| SalvageRepair.RepairedMessages | src/toas/history_salvage.py:220-251 | With unique ids: after any number of events the messages written are the preserved ones so far, re-parented, in log order |
| SalvageRepair.RepairedJournal | src/toas/history_salvage.py:201-264 | With unique ids: each preserved message is written once, re-parented; ids stay unique; written, collapsed and lost messages make up the journal |
| SalvageRepair.ConservedExactly | src/toas/history_salvage.py:220-251 | Nothing is lost, and written plus collapsed is logged, exactly when every uncollapsed message is attached |
| SalvageRepair.UnattachedIsLost | src/toas/history_salvage.py:236-251 | An uncollapsed message that is not attached is not written |
| SalvageRepair.OrderedIsAttached | src/toas/history_salvage.py:236-251 | When parents come first every message is attached |
| SalvageRepair.SalvageKeepsMeaning | src/toas/history_salvage.py:201-264 | With unique ids: every message of the written journal was logged and uncollapsed, has a lineage there, and reads as the lineage theorem says |
| SalvageRepair.PreservedClosed | src/toas/history_salvage.py:236-251 | At every moment of the loop whatever is preserved hangs below `n0` or something preserved |
| SalvageRepair.RepairedIsClosed | src/toas/history_salvage.py:236-251 | With unique ids: every emitted parent is `n0` or itself emitted |
| SalvageRepair.RepairedIsForest | src/toas/history_salvage.py:201-264 | The written journal has unique ids and no cycle, so it can be salvaged again |
| SalvageRepair.SalvageRemovesDuplicates | src/toas/history_salvage.py:267-292 | Something is removed exactly when there is a second duplicate start |
| SalvageRepair.SidecarFollows | src/toas/history_salvage.py:317-368 | One record: it survives exactly when a field refers to a preserved or collapsed message, and then no field names a collapsed one and one names a preserved one |
| SalvageRepair.SidecarAt | src/toas/history_salvage.py:253-260 | In the loop a sidecar is dropped exactly when it refers to nothing preserved so far and nothing collapsed; otherwise what is written names no collapsed message and a preserved one |
| SalvageRepair.SidecarWritten | src/toas/history_salvage.py:317-343 | What is written of a sidecar record: each reference the equivalence map knows is the message it maps to, any other is as it was; each change is noted under the name of its field, in the order of the fields; the rest stays |
| SalvageRepair.CountsAre | src/toas/history_salvage.py:253-259 | The two counters are the numbers of sidecar records that leave nothing, and something other than themselves |
| SalvageRepair.SidecarsFollow | src/toas/history_salvage.py:253-260 | No sidecar of the repaired journal names a collapsed message, and each names one that is preserved |
| SalvageCandidates.LogOrderLatest | src/toas/history_salvage.py:83-86 | An id has the position of its last message |
| SalvageCandidates.WalkPaths | src/toas/history_salvage.py:158-168 | The nested walk appends paths to leaves only, and reaches every leaf of the subtree |
| SalvageCandidates.BestDescendant | src/toas/history_salvage.py:152-170 | The chosen head is a leaf of the subtree that no other leaf exceeds in depth, the latest in the log among the deepest |
| SalvageCandidates.ReplacementChildrenByContent | src/toas/history_salvage.py:141-149 | Children are grouped by what they read, in log order, in first-seen key order, leaving out those reading as the root does |
| SalvageCandidates.LatestStart | src/toas/history_salvage.py:97 | The selected start is the last of its group in the log |
| SalvageCandidates.CandidateFor | src/toas/history_salvage.py:92-117 | What is built for a large enough group is a valid candidate with that root and those starts |
| SalvageCandidates.CandidatesAt | src/toas/history_salvage.py:87-117 | At one root: whatever is found is a candidate, and every divergence is covered; the order does not matter, see `CandidatesRanked` |
| SalvageCandidates.RootDivergenceCandidates | src/toas/history_salvage.py:78-118 | Over the whole journal: sound and complete |
| SalvageCandidates.CandidateUnique | src/toas/history_salvage.py:92-117 | Root and group determine a candidate |
| SalvageCandidates.CandidateFound | src/toas/history_salvage.py:78-118 | Every candidate of the journal is in the list returned |
| SalvageCandidates.CandidatesRanked | src/toas/history_salvage.py:61-64 | Of two different candidates one outranks the other, so the choice does not depend on the order they are found in |
| SalvageCandidates.SelectedOnPath | src/toas/history_salvage.py:90-116 | A candidate's selected start is the second message on its head's lineage |
| SalvageCandidates.SalvageRootDivergence | src/toas/history_salvage.py:48-75 | Repairs exactly when a candidate exists, and then one such that no other keeps more messages, of those keeping as many none was written more often, and of those none has a greater head; the result holds that repair's events, preserved ids and sidecar counts |
| SalvageCandidates.SalvageShrinks | src/toas/history_salvage.py:48-75 | With unique ids and at least two duplicates asked for, the result has strictly fewer messages |
| SalvageCandidates.RepeatedSalvageEnds | src/toas/history_salvage.py:48-75 | Every journal of a run of salvages can be salvaged again, and with at least two duplicates asked for the run is no longer than the first journal |
| SalvageCandidates.RepeatedSalvageReads | src/toas/history_salvage.py:48-75 | After any number of salvages a message still there reads as at first, less at most one leading turn for each salvage |
| SalvageTwice.SomeTwoDivergences | src/toas/history_salvage.py:78-118 | Such journals exist: two roots, each with two children that read the same but not as the root, and a message diverging below the earlier duplicate of the second |
| SalvageTwice.PairIsCandidate | src/toas/history_salvage.py:78-118 | Two children of a root that read the same but not as it does, the later a leaf, are a candidate when two duplicates are asked for |
| SalvageTwice.PairIsOnly | src/toas/history_salvage.py:78-118 | It is the only candidate at its root |
| SalvageTwice.FirstIsChosen | src/toas/history_salvage.py:61-64 | In such a journal the second root's pair is a candidate that no other outranks |
| SalvageTwice.FirstSalvage | src/toas/history_salvage.py:201-264 | What that repair writes: the diverging message before its new parent |
| SalvageTwice.SecondIsChosen | src/toas/history_salvage.py:61-64 | In what was written the first root's pair is a candidate that no other outranks |
| SalvageTwice.SecondSalvageLoses | src/toas/history_salvage.py:48-75 | Salvaged twice, each time the candidate the program chooses, such a journal loses a message the first salvage had kept |
| PrefixCollapse.CollapsePrefix | scripts/canonical_prefix_collapse.py:138-162 | What the fold over three maps and a counter returns: exactly the logged ids are mapped; two share a canonical node exactly when their paths read the same; the canonical lineage reads the path; as many nodes as distinct logged paths |
| PrefixCollapse.TrieGrows | scripts/canonical_prefix_collapse.py:151-161 | A node with a new (parent, role, content) key reads a path no other canonical node reads |
| PrefixCollapse.TrieLineage | scripts/canonical_prefix_collapse.py:182-195 | A canonical node's lineage reads its path |
| PrefixCollapse.CollapseIsPathEquality | scripts/canonical_prefix_collapse.py:138-162 | For every log: two ids share a canonical node exactly when their logged paths read the same, and the canonical lineage reads that path |
| PrefixCollapse.CollapseCount | scripts/canonical_prefix_collapse.py:138-162 | There are exactly as many canonical nodes as distinct paths |
| PrefixCollapse.PathsLoggedMember | scripts/canonical_prefix_collapse.py:144-150 | The counted paths are exactly the paths of the logged nodes |
| PrefixCollapse.LoggedPathIsLineage | scripts/canonical_prefix_collapse.py:144-150 | With parents first, the path the fold follows is the lineage |
| PrefixCollapse.CollapsePreservesLineage | scripts/canonical_prefix_collapse.py:138-195 | With parents first: folded together exactly when lineages are equal, and the canonical lineage reads as the original |
| PrefixCollapse.CheckedLineage | scripts/canonical_prefix_collapse.py:165-195 | Missing target, cycle and success are told apart exactly; success returns the lineage |
| Projection.QualifyInjective | src/toas/projection_selection.py:178-180 | A qualified id names one source and one local id |
| Projection.QualifiedMessageEvents | src/toas/projection_selection.py:160-175 | One source is taken as it is; of several, the events one source after the other, each message with the source id and a colon before its id, and before its parent unless that is missing, empty or `n0` |
| Projection.CheckIntegrity | src/toas/projection_selection.py:197-219 | Accepts exactly the sources with unique ids and logged parents; otherwise reports the first repeated id, or without one the first message with a missing parent |
| Projection.MergedOrigin | src/toas/projection_selection.py:160-175 | Every merged message is one source's message, renamed |
| Projection.MergedEntry | src/toas/projection_selection.py:160-175 | Every source's message is in the merged events under its qualified id |
| Projection.MergedParent | src/toas/projection_selection.py:168-174 | A merged message has a parent exactly when it has one at home, and then the renamed one |
| Projection.NoStrayParent | src/toas/projection_selection.py:168-174 | A parent absent at home is not captured by another source |
| Projection.LineageCommutes | src/toas/projection_selection.py:160-175 | The renamed home walk is the walk in the merged events |
| Projection.MergedWalkIsLocal | src/toas/projection_selection.py:160-175 | Every merged walk is a renamed home walk |
| Projection.QualifiedLineage | src/toas/graph.py:1286-1297 | Lineage exists merged exactly when at home, with renamed path and identical reading |
| Stitch.EquivalentIsAgreement | src/toas/graph_stitch_edges.py:133-147 | The pseudonym-based test is agreement of all sources at that position |
| Stitch.SelectedScopeStitch | src/toas/graph_stitch_edges.py:33-65 | Single source and missing root are told apart exactly; otherwise the stitch is the common prefix, stopping where agreement fails |
| Stitch.StitchIsLongest | src/toas/graph_stitch_edges.py:33-65 | The first n messages of all sources read the same and hang below one another from a root exactly when n is at most the stitch's length |
| Stitch.PseudonymsAgree | src/toas/graph_stitch_edges.py:33-65 | All pseudonyms of a stitched node have identical lineages in their own sources |
| Stitch.ProveRootPrefix | src/toas/graph_stitch_edges.py:83-101 | Success exactly when the cold lineage is a non-empty, parent-linked prefix of the hot one; pairs match position by position up to the first mismatch, whose reason is reported |
| Anchors.AnchorForSources | src/toas/projection_selection.py:80-115 | The resolution steps in order, for one source and for several |
| Anchors.LocalAnchorNames | src/toas/projection_selection.py:86-91 | With one source an anchor resolves only to a logged message it names, bare or by the source id, and it resolves to every message so named |
| Anchors.MatchedNode | src/toas/projection_selection.py:118-134 | A stitched match is the first node with the anchor among its names, and returns that node's canonical name |
| Anchors.CanonicalReads | src/toas/projection_selection.py:118-134 | The canonical name reads in the merged events what every name of the node reads at home |
| Anchors.SplitQualified | src/toas/projection_selection.py:147-153 | Splitting recovers the parts for a non-empty colon-free source id, and nothing usable otherwise |
| Anchors.UnstitchedQualified | src/toas/projection_selection.py:96-115 | Without a stitch a qualified anchor resolves to itself exactly for such source ids |
| Anchors.QualifiedAnchorKeepsLineage | src/toas/projection_selection.py:80-134 | Whatever a qualified anchor resolves to is in the merged events and reads what the anchor reads at home |
| Anchors.BareAnchorKeepsLineage | src/toas/projection_selection.py:80-134 | A bare anchor resolves to something reading as it does in a source that logs it; not found and ambiguous are justified |
| Anchors.UnstitchedBare | src/toas/projection_selection.py:104-115 | Without a stitch a bare anchor is not found exactly when no source logs it, ambiguous exactly when two do, and otherwise resolves to its qualified name in the one that does |
| IndexRecords.IdRoundTrip | src/toas/graph_index_edges.py:96-105 | An id survives storage exactly when it fits the field and does not end in a zero byte |
| IndexRecords.RecordRoundTrip | src/toas/graph_index_edges.py:96-105 | Unpacking undoes packing up to the id's storage form |
| IndexRecords.PackLayout | src/toas/graph_index_edges.py:96-105 | The bytes of a record: four of the line number and eight of the offset, most significant first, then 32 of the id, cut or followed by zeros |
| IndexRecords.PackUnpack | src/toas/graph_index_edges.py:96-105 | Packing undoes unpacking on every 44-byte record |
| IndexRecords.EncodedRecordAt | src/toas/graph_index_edges.py:125-139 | The n-th fixed-width slot holds the n-th record |
| IndexRecords.DecodeEncode | src/toas/graph_index_edges.py:108-122 | A file reads back as the records written |
| IndexRecords.EncodeDecode | src/toas/graph_index_edges.py:108-122 | Any file of whole records is the encoding of what it reads |
| IndexRecords.EncodeInjective | src/toas/graph_index_edges.py:96-100 | Different indexes are stored differently |
| JournalFiles.AppendIndexRecords | src/toas/graph_index_edges.py:96-100 | Appends the encoded records to the file |
| JournalFiles.RebuildIndex | src/toas/graph_index_edges.py:161-192 | Stamped, with one record for each message line in order: the line's number, the place in the file where its bytes begin, and its id; no index file if there is none, nothing without a journal file |
| JournalFiles.RebuiltIsCurrent | src/toas/graph_index_edges.py:82-93 | A rebuilt index is not rebuilt again |
| JournalFiles.EnsureCurrentIndex | src/toas/graph_index_edges.py:82-93 | Rebuilds exactly when an index exists beside an existing file with a stale or missing stamp, and then it locates the message lines; removed without a journal file; otherwise untouched |
| JournalFiles.ReadIndex | src/toas/graph_index_edges.py:108-122 | Returns the records of the refreshed index, each unpacked from its 44 bytes |
| JournalFiles.SeekIndexByPosition | src/toas/graph_index_edges.py:125-139 | Returns the n-th record exactly when there is one |
| JournalFiles.FindIndexById | src/toas/graph_index_edges.py:142-158 | Returns the first record stored under the padded id, or none when no record is |
| JournalFiles.WriteMessageLines | src/toas/graph.py:1764-1784 | The lines go to the end and the records appended are, for exactly the lines written, their numbers, the places in the longer file where their bytes begin, and their ids; the index is stamped |
| JournalFiles.LocateUnique | src/toas/graph_index_edges.py:161-192 | Lines have only one list of such records |
| JournalFiles.InStepIsRebuilt | src/toas/graph_index_edges.py:161-192 | An index is in step exactly when it holds the bytes a rebuild would store |
| JournalFiles.InStepLocates | src/toas/graph_index_edges.py:161-192 | An index is in step exactly when it is the encoding of one record for each message line in order, with the line's number, the place where its bytes begin, and its id |
| JournalFiles.WriteKeepsStep | src/toas/graph.py:1764-1784 | The incremental append refines the rebuild: in step after a write exactly when in step before |
| JournalFiles.AppendKeepsStep | src/toas/graph.py:1789-1796 | Sidecar appends leave the index in step exactly when it was |
| JournalFiles.SourceReadsRight | src/toas/graph_index_edges.py:236-240 | A source's index reads right exactly when it is absent, known to be stale, or in step |
| JournalFiles.SafeReadsRight | src/toas/graph_index_edges.py:236-240 | A source whose index is absent, known to be stale, or in step reads right, whatever bytes a stale index holds |
| JournalFiles.WriteReadsRight | src/toas/graph.py:1782-1784 | After a message write the index reads right exactly when it was in step before it |
| JournalFiles.InterruptedSealThenWrite | src/toas/graph_rotation_edges.py:112-125 | A seal stopped after dropping the hot index, then a message write, leaves a wrong index that is accepted |
| JournalDisk.SealKeepsHistory | src/toas/graph_rotation_edges.py:106-125 | Moving the hot file to the next ordinal leaves the logical history and gapless ordinals |
| JournalDisk.PerformKeepsSound | src/toas/graph.py:1731-1796 | Every operation keeps ordinals gapless and indexes in step, and extends the history by its batch |
| JournalDisk.EveryRun | src/toas/graph.py:1731-1796 | In every run of writes, appends, seals, hot-index and logical-index reads from an empty journal the history is the batches in order and every index is what a rebuild would store |
| JournalDisk.LogicalIndexIsRight | src/toas/graph_index_edges.py:243-257 | If every index is absent, known to be stale, or in step, the logical index lists exactly the history's messages in order at positions 0 to N-1, each record naming its source and the line and place in that source where the message's bytes begin |
| JournalDisk.HotReadsRight | src/toas/graph_index_edges.py:82-122 | In a sound journal the hot file's own index, read at any moment, gives one record for each of its message lines: number, place where it begins, id |
| JournalDisk.LogicalReadIsRight | src/toas/graph_index_edges.py:243-257 | In a sound journal a logical-index read keeps soundness and history and lists the history's messages with source, line, place and id |
| JournalDirectory.Directory.constructor | src/toas/graph_rotation_edges.py:68-85 | An empty journal is sound with empty history |
| JournalDirectory.Directory.WriteMessageEvents | src/toas/graph.py:1731-1784 | In place: new state as specified; soundness kept and the batch appended to the history |
| JournalDirectory.Directory.AppendNodes | src/toas/graph.py:1789-1796 | The same for sidecar records, which leave the index alone |
| JournalDirectory.Directory.CheckLayout | src/toas/graph.py:447-477 | Accepts exactly ordinals 1 to k without a gap |
| JournalDirectory.Directory.SealHotJournal | src/toas/graph_rotation_edges.py:88-130 | Nothing at or below the limit, an error exactly on a gapped layout over it; else the hot lines are those of the next ordinal's segment, whose index locates its message lines, the other segments are as they were, the hot file is empty without an index, and the size reported is its bytes; soundness and history kept |
| JournalDirectory.Directory.ReadLogicalHistory | src/toas/graph.py:279-286 | Segments in order, then the hot file; refused exactly on a gapped layout |
| JournalDirectory.Directory.ReadHotIndex | src/toas/graph_index_edges.py:108-122 | Refreshes and reads the hot file's index in place; from a sound journal it locates the hot file's message lines |
| JournalDirectory.Directory.ReadLogicalIndex | src/toas/graph_index_edges.py:243-257 | Refreshes or rebuilds each source's index and numbers all records from zero; from a sound journal it lists the history's messages with source, line, place and id; refused exactly on a gapped layout |
| Rollover.ActKeeps | src/toas/graph_rotation_edges.py:88-130 | Every step, including an interruption, keeps history and ordinals |
| Rollover.EveryInterleavingKeeps | src/toas/graph_rotation_edges.py:88-130 | Over every interleaving of appends, seals and interruptions the history is the lock-order concatenation of the batches |
| Rollover.AdvanceReads | src/toas/graph_rotation_edges.py:112-127 | Each step of a seal or write leaves every index absent, visibly stale, or right |
| Rollover.EveryCarefulRunReads | src/toas/graph_index_edges.py:236-257 | In every run whose message writes begin with the hot index in step, an immediate logical-index read lists the history's messages with source, line, place and id, for any history the record format can hold |
| Rollover.ReadingRestores | src/toas/graph_index_edges.py:236-240 | A logical-index read brings the hot index in step, and without an interruption it stays so |
| Rollover.CompletedWrite | src/toas/graph.py:1764-1784 | A write run to its end step by step is the whole operation, and leaves an index that reads right exactly when it began in step |
| Rollover.CompletedAppend | src/toas/graph.py:1789-1796 | An append run to its end is the whole operation |
| Rollover.CompletedSeal | src/toas/graph_rotation_edges.py:88-130 | A seal run to its end, through all of its eight steps, is the whole operation |
| Rollover.InterruptedRunReadsWrong | src/toas/graph_rotation_edges.py:112-125 | A run from an empty journal, a write, a seal interrupted after dropping the hot index, and another write, after which the logical index does not list the history |
| JournalLock.StepKeepsConsistent | src/toas/graph_journal_lock_edges.py:54-90 | Every step of every thread keeps everybody's lock bookkeeping consistent |
| JournalLock.EveryRunConsistent | src/toas/graph_journal_lock_edges.py:54-90 | So does every run |
| JournalLock.LockExcludes | src/toas/graph_journal_lock_edges.py:54-90 | At most one thread is inside for a path; recorded depth is the thread-lock count; the process lock is held from first entry to last exit only |
| JournalLock.NestedEntryReturns | src/toas/graph_journal_lock_edges.py:59-64 | A nested entry and exit restore the state exactly |
| JournalLock.FirstEntry | src/toas/graph_journal_lock_edges.py:65-73 | When nobody holds the path's locks a first entry can be made step by step, and ends inside at depth 1 with the process lock held |
| JournalLock.EntryInRun | src/toas/graph_journal_lock_edges.py:65-73 | So any run that reaches such a state goes on to one in which the thread is inside |
| JournalLock.LastExit | src/toas/graph_journal_lock_edges.py:78-90 | Leaving at depth 1 can be done step by step, and ends with depth, process lock and thread lock given back |
| JournalLock.LeavingLetsIn | src/toas/graph_journal_lock_edges.py:78-90 | After it whoever waited for the process lock can take it, and another process's thread can enter |
| JournalLock.FailureReturns | src/toas/graph_journal_lock_edges.py:66-72 | An entry that fails to take the process lock leaves everything as it was |
| MessageWriter.HotJournal.WriteMessageEvents | src/toas/graph.py:1731-1760 | All nodes are written, each seeing those before it, or none; the other events stay. Each message written has its node's role, content and provenance, the node's id or else the number after that of the message before it, and the node's parent or else the message before it, `n0` if there is none; the write fails exactly when the message before one of them has no number to go on from |
| MessageWriter.HotJournal.AppendNodes | src/toas/graph.py:1789-1796 | Exactly the given sidecars are appended, and the messages are as they were |
| MessageWriter.NthIdInjective | src/toas/graph.py:1715-1721 | Different numbers give different ids |
| MessageWriter.WriteKeepsForest | src/toas/graph.py:1715-1760 | A node without an id and with a default or logged parent gets the next number and keeps the forest |
| MessageWriter.RunKeepsForest | src/toas/graph.py:1731-1760 | So does any run, extending the journal |
| MessageWriter.CallsKeepOrder | src/toas/graph.py:1715-1760 | Every sequence of write, append and seal calls keeps each source numbered from n1 in order and parents first |
| MessageWriter.EveryWriteRun | src/toas/graph.py:1715-1760 | After any sequence of write, append and seal calls from empty, every source, sealed or hot: ids n1 to nk in order, parents first, integrity check passes whatever the source id, salvage accepts it, the walk from the i-th message takes at most i steps; and ids are unique across the logical history exactly when at most one source holds messages |
| MessageWriter.UniqueAcrossSources | src/toas/graph.py:1715-1728 | Sources each numbered from n1 have unique ids together exactly when at most one of them holds messages |
| MessageWriter.ForestIsIntact | src/toas/projection_selection.py:197-219 | An ordered forest passes the integrity check |
| BestPrefix.CountCommon | src/toas/transcript.py:146-153 | The counting loop returns the longest common prefix length |
| BestPrefix.LcpMonotone | src/toas/transcript.py:146-153 | A longer lineage matches no less |
| BestPrefix.ListHeads | src/toas/graph.py:1307-1315 | Exactly the messages nobody names as parent, each once; ids "n" and digits first, by number, then the others by code point |
| BestPrefix.SortedHeads | src/toas/graph.py:1314-1321 | The sort by key puts no greater key before a lesser one |
| BestPrefix.SortStable | src/toas/graph.py:1314-1321 | Two ids change their order only if the later belongs before the earlier |
| BestPrefix.SomeHeadBelow | src/toas/graph.py:1307-1315 | Every message's lineage is a prefix of some head's |
| BestPrefix.DeriveBestPrefixHead | src/toas/cli_session_commands.py:41-69 | No head for an empty transcript; otherwise the first candidate that matches the longest prefix at the greatest length: it matches at least as much as any message's lineage, no head that matches as much has a longer one, and a head is chosen over the last message only if it is strictly better |
| HeadStats.LineageStats | src/toas/operator_api.py:790-799 | The direct loops give a lineage's length, the number of its messages whose role is not that of the one before, and for each source of a message in it the number of messages from that source |
| HeadStats.DirectExtend | src/toas/operator_api.py:776-787 | Extending the statistics of a lineage by one message gives the direct statistics of the longer lineage |
| HeadStats.ExtendIsStats | src/toas/operator_api.py:776-787 | A message's statistics are its parent's, extended |
| HeadStats.ClimbOne | src/toas/operator_api.py:763-769 | The climbing loop keeps its path, gets strictly closer to the root and never pushes a message twice |
| HeadStats.FillOne | src/toas/operator_api.py:771-776 | Popping a message writes its correct statistics and keeps the memo right |
| HeadStats.StatsForEvent | src/toas/operator_api.py:758-777 | The two stack loops leave the memo right, with each new entry pushed and computed once |
| HeadStats.HeadLineageStats | src/toas/operator_api.py:749-755 | Every entry is what the direct computation gives, and describes the lineage: length, number of role changes, number of messages of each source; over the whole pass each message is pushed once and computed once |
| Grants.FoldIsLastWord | src/toas/graph_control_state_edges.py:74-161 | A scope's added and removed sets are exactly the last operation on each grant since its last reset |
| Grants.FoldStands | src/toas/graph_control_state_edges.py:74-161 | A scope adds a command exactly when some record about that scope adds it and none after that one removes it there or resets the scope; likewise for removing; a scope grant without a scope, or for the head, is about the session |
| Grants.AddedAndRemovedDisjoint | src/toas/graph_control_state_edges.py:87-161 | They stay disjoint |
| Grants.ChangeAllMeaning | src/toas/graph_control_state_edges.py:93-108 | A list of values moves exactly its non-empty strings to one set |
| Grants.ApplyValues | src/toas/graph_control_state_edges.py:93-108 | The value loop, over both sets |
| Grants.FoldRecords | src/toas/graph_control_state_edges.py:74-161 | The event loop computes the fold |
| Grants.LayerMeaning | src/toas/graph_control_state_edges.py:206-213 | One scope's edits on a list without repeats: allowed exactly if added, or already there and not removed; still no repeats |
| Grants.RemoveFirstIsWithout | src/toas/graph_control_state_edges.py:207-209 | Without repeats, removing the first occurrence removes the command |
| Grants.RemoveAll | src/toas/graph_control_state_edges.py:207-209 | Removing the sorted set one by one leaves the others in order |
| Grants.AppendMissing | src/toas/graph_control_state_edges.py:210-212 | Appends exactly the missing additions in sorted order |
| Grants.AllowedNoRepeats | src/toas/graph_control_state_edges.py:203-213 | The computed list has no duplicates |
| Grants.GrantPrecedence | src/toas/graph_control_state_edges.py:198-218 | A command is allowed exactly when the strongest scope mentioning it adds it, or none mentions it and it is a default |
| Grants.GrantedStands | src/toas/graph_control_state_edges.py:198-218 | A command is granted exactly when a scope adds it, or it is a default, and no scope above removes it |
| Grants.ActiveShellGrants | src/toas/graph_control_state_edges.py:61-219 | A list is in force exactly when some scope has edits; it obeys precedence; each edited scope records its own list |
| Grants.StrongestLayerDecides | src/toas/graph_control_state_edges.py:203-218 | The strongest edited scope's recorded list is the list in force |
| StreamEscaper.Escaper.FeedChar | src/toas/cli_streaming.py:32-54 | One character puts out exactly what becomes settled |
| StreamEscaper.Escaper.Feed | src/toas/cli_streaming.py:30-57 | Feeding text puts out the newly settled part, whatever came before |
| StreamEscaper.Escaper.Flush | src/toas/cli_streaming.py:59-68 | Flushing completes the escaped text |
| StreamEscaper.EscapeStream | src/toas/cli_streaming.py:18-68 | For every split into chunks the output is the escaped whole text |
| StreamEscaper.EscapedLines | src/toas/cli_streaming.py:18-68 | Escaping acts line by line |
| StreamEscaper.EscapedLineAt | src/toas/cli_streaming.py:18-68 | A line has a backslash put before it exactly when it is a bare SYSTEM, USER or ASSISTANT marker |
| StreamEscaper.HeldBack | src/toas/cli_streaming.py:30-57 | Nothing is held back but an open line that is the beginning of such a marker |
| StreamGuard.HeldIsRest | src/toas/llm.py:467-488 | The held text is the end of what was received |
| EscaperAgreement.StreamAgreesWithBatch | src/toas/transcript.py:17-18 | Stream and batch escaping agree exactly when those are the only marker lines |
| StreamGuard.Guard.ProcessChunk | src/toas/llm.py:467-488 | Stops exactly when the held text and the chunk have a user turn line, and then puts out what comes before it; otherwise holds all back exactly when the last line is a non-empty beginning of `## USER`, and puts out all if not |
| StreamGuard.Guard.Finalize | src/toas/llm.py:524-531 | The held text is put out; the answer is what was emitted, a prefix of what was received, with no user turn, and all of it without a stop |
| StreamGuard.GuardStream | src/toas/llm.py:467-531 | For every chunking: stops exactly at the first chunk completing a user turn line of the held text; without one the answer is the whole text; with one it is the text up to its first user turn exactly unless the held text began mid-line with what looks like one; never a user turn, always a prefix |
| StreamGuard.TruncationIsClean | src/toas/llm.py:721-725 | A truncated text has no `## USER` line and ends at a line end |
| StreamGuard.TruncationEndsAtTurn | src/toas/llm.py:721-725 | What was cut off begins with a line that is just `## USER` |
| StreamGuard.TruncateAppend | src/toas/llm.py:469-478 | Truncating the held text truncates the whole text exactly when the held text began at a line start or its first line is not the marker |
| StreamGuard.EarlyStop | src/toas/llm.py:469-478 | In the remaining case the guard stops before the text's own truncation |
| StreamGuard.StopsInMidLine | src/toas/llm.py:469-478 | A stream of two chunks without a user turn line on which the guard stops |
| Transcript.RenderedMarkerIsRead | src/toas/transcript.py:25-36 | Every rendered marker is recognised as its role |
| TranscriptReading.MarkerGrammar | src/toas/transcript.py:3-5 | A line marks a role exactly when it is the prefix and the role's name followed by nothing, by a blank and anything, or by a slash and something not blank |
| Transcript.EscapedSplit | src/toas/transcript.py:17-18 | Escaping acts line by line |
| TranscriptReading.EscapedExactly | src/toas/transcript.py:7-22 | A line gets a backslash exactly when it marks some role and has no carriage return, and loses one exactly when it is one followed by such a line |
| Transcript.EscapeRoundTrip | src/toas/transcript.py:17-22 | Unescaping undoes escaping exactly when no line was already an escaped marker |
| Transcript.SplitLinesTerminated | src/toas/transcript.py:107 | Lines without break characters are split back exactly |
| TranscriptReading.SplitLinesAt | src/toas/transcript.py:107 | A line ends at any of the ten break characters, a carriage return and a newline being one; what follows the last is a line unless it is empty |
| TranscriptCodec.RenderTranscript | src/toas/transcript.py:39-52 | The block loop and the join produce the specified text |
| TranscriptReading.PrintedLines | src/toas/transcript.py:39-52 | One-line entries: the marker line, a blank line if spaced, the content line, and a blank line between entries |
| TranscriptCodec.ParseTranscript | src/toas/transcript.py:55-136 | The line loop with its role, lines and flags computes the specified parse, failing on the first bad line |
| TranscriptReading.PlainReading | src/toas/transcript.py:107-136 | A text without thinking blocks is rejected exactly when a line has the marker prefix and marks no role, or is a system marker after another marker, for the first such line; otherwise it reads one entry for each marker line: its role, and the content of the lines up to the next |
| TranscriptReading.ThinkingSkipped | src/toas/transcript.py:108-113 | A thinking block reads as if it were not there; one that is not ended hides the rest |
| TranscriptReading.BlockReads | src/toas/transcript.py:69-96 | A block's content is its lines without a telemetry comment on the first line that is not blank: joined, stripped, unescaped |
| TranscriptMargins.UnescapesExactly | src/toas/transcript.py:17-22 | Unescaping the stripped escape of a content gives its stripped core exactly when no core line is an escaped marker and the last line, if a marker with its white space, is one without |
| TranscriptMargins.BlockFull | src/toas/transcript.py:63-105 | Reading a block back keeps the number of full lines of the content, but for a leading telemetry comment |
| TranscriptMargins.ContentRoundTrip | src/toas/transcript.py:63-105 | The escaped lines of a content, with blank lines around, read back as its stripped core exactly when it has no telemetry comment first and keeps its markers |
| TranscriptMargins.CleanIsTrimFit | src/toas/transcript.py:63-105 | A content is clean exactly when it fits and is already stripped |
| TranscriptCodec.StripFixed | src/toas/transcript.py:94 | Stripping is the identity exactly on trimmed text |
| TranscriptReading.StrippedExactly | src/toas/transcript.py:94 | Stripping takes white space from both ends, and all there is |
| TranscriptRoundTrip.RenderedParses | src/toas/transcript.py:39-136 | After the printed lines of n fitting entries, n-1 are read back stripped and the last is open |
| TranscriptRoundTrip.FittingReads | src/toas/transcript.py:39-136 | Fitting entries are read back with stripped contents, for both spacings |
| TranscriptRoundTrip.TranscriptRoundTrips | src/toas/transcript.py:39-136 | Faithful entries are read back for both spacings |
| TranscriptRoundTrip.ProjectionMatchesLineage | src/toas/graph.py:1458-1469 | A transcript projected from fitting entries, whatever white space surrounds their contents, has a full-length common prefix with its own lineage |
| TranscriptConverse.ParsedIsTame | src/toas/transcript.py:55-136 | Whatever is parsed has trimmed contents with no break character but the newline |
| TranscriptConverse.CountBounded | src/toas/transcript.py:107-131 | No more entries are read than were printed |
| TranscriptConverse.NothingLost | src/toas/transcript.py:107-113 | A content that reads back as its core lost no line to a thinking block |
| TranscriptConverse.ReadsBackOnlyFits | src/toas/transcript.py:63-136 | A content that reads back as its core fits |
| TranscriptConverse.ReadsExactly | src/toas/transcript.py:39-136 | Contents broken by newlines only are read back stripped exactly when the entries fit |
| TranscriptConverse.RoundTripIffFaithful | src/toas/transcript.py:39-136 | Printing then parsing gives the same entries exactly when they are faithful, for both spacings |
| TranscriptConverse.ProjectionMatchesExactly | src/toas/graph.py:1458-1469 | For contents whose outer white space is broken by newlines only, a projected transcript matches its own lineage to the end, contents compared stripped, exactly when its entries fit |
| TranscriptConverse.CleanCoreUnfit | src/toas/transcript.py:113-131 | A clean stripped content is not enough: a marker followed by a no-break space is printed as an unrecognised marker line |

## Left out

- TranscriptConverse.ProjectionMatchesExactly: contents whose outer white space holds a line break other than a newline are outside it, because escaping looks at lines ended by newlines and the parser also splits there.
- Rollover.EveryCarefulRunReads: index reads happen while no writer is inside the lock, though the program rebuilds without taking it; and a write interrupted between two of its bytes is not modelled.
- JournalFiles.FindIndexById: ids are bytes, so a decoding error for an id cut in the middle of a character is not modelled.
- Grants.ActiveShellGrants: the source id recorded with each grant, the scalar and nested configuration, and an explicit scalar override of the list are not modelled.
- MessageWriter.HotJournal.WriteMessageEvents: timestamps and metadata fields are not modelled, and parsing a message number is modelled for strings of the digits 0 to 9 only.
- BestPrefix.ListHeads: an id whose number is written in digits other than 0 to 9 sorts here as a string.
- SalvageCandidates.SalvageRootDivergence: the equivalence map and the lists of divergent and collapsed ids that the program also reports are not fields of the modelled result; the salvaged journal must have messages with unique ids and no cycle of parents, though the program would also run on others.
- Lineage lookup by id prefix, turn handle or marker stamp: rests on turn telemetry, which is not part of this model.
- Marker and telemetry metadata carried by parsed and rendered messages, turn ids, and roles spelled with a version number.
- `observe_literal_text` of the stream escaper, and the presenter around it.
- The reasoning channel, model and usage fields of a streamed chunk, and the reasoning-only fallback for an empty answer.
- `normalize_whitespace_structural` of the prefix collapse: its pattern can cross line ends; only the mode without normalisation is modelled.
- Opening, releasing and closing the lock file are taken to succeed (acquiring it may fail); the Windows lock calls are the same state machine.
- File-system details: gzip segments, stat fingerprints (a version that changes on every write stands for them), JSON encoding of a line, and the segment file names behind the ordinals.
- `completed_round_trip_tokens`, `effective_hot_log_limit_bytes` and rotation pressure: simple scans and a maximum that only choose the limit passed to a seal.
- `cold_enrichment_records_for_hot_message`: a filter over the stitch proof.
- Default head choice, source selection and the command-line layer.
- The asynchronous run store, host, daemon, drivers, retries, prompts and tools.
