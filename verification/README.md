# Kai verification model

Dafny models of the parts of Kai that decide what is stored, transferred and
merged, with proofs of what they promise. `dafny verify dfyconfig.toml` checks
everything.

What is modelled, by component:

- **Git transport** (`kailab/sshserver`): the delta generator with its
  hash-chained match index, and the delta interpreter (`DeltaIndex`,
  `DeltaFormat`, `DeltaCodec`, `DeltaLimit`); the pack writer and parser
  (`GitPack`, `PackRoundTrip`); pkt-line and side-band framing (`PktLine`);
  collection of what a commit reaches (`GitGraph`, `GitGraphReach`,
  `GitGraphDepth`, `GitGraphRoles`); snapshots turned into tree objects and
  fetched through a commit (`TreeEntries`, `SnapshotTree`, `TreeObjects`,
  `CommitText`, `SnapshotFetch`), and what collection means in terms of the
  objects' bytes (`ObjectGraph`); the object cache (`ObjectCache`).
- **Change analysis** (`kai-core`, `kailab/api`): edit distance and rename
  detection (`EditDistance`, `Renames`), longest common subsequence
  (`CommonSubsequence`), clustering of change signals (`UnionFind`,
  `DependencyClusters`, `ChangeClusters`, with `ClusterPieces` and `SignalBags`
  for clusters as values), the three-way merge (`ThreeWayMerge`).
- **Storage** (`kailab/store`, `kailab/pack`, `kailab/repo`): refs with their
  hash-chained history (`RefStore`), segments indexed by digest
  (`SegmentStore`), the batched reader against the single one (`BatchRead`),
  the registry of open repositories (`RepoRegistry`, with `LinkedLists`).

Conventions. Code that changes things step by step is a class or a method with
loops, proved equal to a specification function or relation; the theorems are
lemmas about the specification. Bytes are integers from 0 to 255, bit
operations are written with division and remainder, and 64-bit wrap-around is
written out where it can happen. A Go panic is an error value. Map iteration
picks keys in any order. Hashes, compression, JSON and unit extraction are
function parameters. No hash is assumed injective: a result that depends on a
hash says "or a collision is exhibited", or speaks of every store that holds
the objects in question.

Where the code and what is said about it differ, the model follows the code:

- A copy instruction has room for a 24-bit size only, so a delta with a longer
  match is generated but does not restore its target; from 2^24 bytes on there
  is such a file of every length.
- A parent line is recognised anywhere in a commit's text, also in the message;
  the parents read are the header's just when the message has no such line.
- A commit whose first tree line is too short makes collection panic where the
  walk comes to it as a commit.
- The unlimited collection does not follow a commit that a tree lists, so it can
  miss objects below it. A depth limit is complete on every well-typed map
  exactly when it is 0 (no limit), 1 or 2; from 3 on the first visit can fix too
  great a depth.
- The batched and the single reader agree, unless the index has a row that runs
  past the end of its segment and the external copy answers with what is left.
- An empty ref target is stored, and the target columns of the history then
  read as a deletion; the HTTP handlers refuse empty targets.
- A directory and a file of one name may both be in a tree; each path still
  resolves to its own file.

## Model

| member | source | states |
|---|---|---|
| DeltaFormat.SizeRoundTrip | kailab/sshserver/delta.go:188-199 | A size of any magnitude is read back from its 7-bit groups, consuming exactly its own bytes. |
| DeltaFormat.EncodeSize | kailab/sshserver/delta.go:188-199 | The encoding loop writes exactly the specified little-endian 7-bit groups. |
| DeltaFormat.DecodeSize | kailab/sshserver/gitpack_parse.go:314-327 | The decoding loop reads the specified size modulo 64-bit wrap-around and the offset after it, or runs past the end exactly when the specification does. |
| DeltaFormat.UnpackPacked | kailab/sshserver/delta.go:222-281 | The bytes kept by the flags are exactly what is needed to restore all seven fields. |
| DeltaFormat.EncodeCopy | kailab/sshserver/delta.go:222-281 | The fourteen conditional steps produce the specified command byte and the non-zero field bytes in order. |
| DeltaFormat.CopyRoundTrip | kailab/sshserver/delta.go:222-281 | A decoded copy has the offset modulo 2^32 and the size modulo 2^24 (0 meaning 0x10000); it is the encoded one if and only if offset < 2^32 and 0 < size < 2^24. |
| DeltaFormat.ApplyDelta | kailab/sshserver/gitpack_parse.go:237-312 | The decoder equals the interpreter specification, with every error and panic it can end in. |
| DeltaFormat.RunInstructions | kailab/sshserver/gitpack_parse.go:252-309 | The instruction loop equals the step-by-step interpreter from any offset. |
| DeltaFormat.DecodeCopyArgs | kailab/sshserver/gitpack_parse.go:257-292 | The seven conditional reads of copy arguments equal the specified unpacking; they run out of bytes exactly when it does. |
| DeltaIndexing.HashBlock | kailab/sshserver/delta.go:65-72 | The loop computes the polynomial hash in wrapping arithmetic with the sign bit cleared. |
| DeltaIndexing.TableSizeIsPowerOfTwo | kailab/sshserver/delta.go:29-43 | The table size is a power of two of at least 256, which is what makes the masked hash a bucket number. |
| DeltaIndexing.DeltaIndex.constructor | kailab/sshserver/delta.go:24-62 | After the in-place fill, every bucket's linked chain is exactly the offsets whose block hashes to it, latest first. |
| DeltaIndexing.Fill | kailab/sshserver/delta.go:53-59 | The fill loop links every block offset onto its bucket. |
| DeltaIndexing.LinkedPush | kailab/sshserver/delta.go:54-59 | Pushing one offset keeps every bucket's chain: links only lead to smaller offsets, so chains end. |
| DeltaIndexing.DeltaIndex.FindMatch | kailab/sshserver/delta.go:76-102 | The capped chain walk returns the specified best match. |
| DeltaIndexing.DeltaIndex.MatchLength | kailab/sshserver/delta.go:105-116 | The loop computes the length of the common run at the two offsets. |
| DeltaIndexing.MatchLenIsLongest | kailab/sshserver/delta.go:105-116 | The run's bytes are equal and it cannot be extended. |
| DeltaIndexing.BestMatchIsBest | kailab/sshserver/delta.go:76-102 | A match found has equal bytes, at least four, at least as long as at any candidate; none is found only if no candidate reaches four. |
| DeltaCodec.GenerateDelta | kailab/sshserver/delta.go:120-185 | The generator returns the header and script of the specified greedy plan; it returns one exactly when the target has at least 16 bytes and a sixteenth of the source, the source has a block, and the delta with a base name is shorter than the target. |
| DeltaCodec.NoMatchNoDelta | kailab/sshserver/delta.go:120-185 | Where nothing matches no delta is produced. |
| DeltaLimit.WholeMatchIsWorthIt | kailab/sshserver/delta.go:120-185 | A target of 47 bytes or more that lies as a whole at one of the candidates gets a delta, of one copy. |
| DeltaCodec.GenerateScript | kailab/sshserver/delta.go:143-176 | The loop with its insert buffer emits exactly the planned instructions. |
| DeltaCodec.TurnWrites | kailab/sshserver/delta.go:146-171 | What a turn emits plus the pending literals is always the part of the target consumed so far. |
| DeltaCodec.ScriptWritesTarget | kailab/sshserver/delta.go:120-185 | The planned instructions stay within the source and write exactly the target, for all inputs. |
| DeltaCodec.DeltaRoundTripExactly | kailab/sshserver/gitpack_parse.go:237-312 | Applying a generated delta always succeeds; it gives the target exactly when each instruction is decoded to the same bytes. |
| DeltaCodec.RestoresIffCopiesAreShort | kailab/sshserver/gitpack_parse.go:237-312 | For a source of at most 2^32 bytes, applying a generated delta gives the target if and only if no copy instruction is as long as 2^24 bytes. |
| DeltaCodec.DeltaRoundTrip | kailab/sshserver/gitpack_parse.go:237-312 | For a source of at most 2^32 bytes, with source or target below 2^24 bytes, applying a generated delta gives exactly the target. |
| DeltaCodec.WrongBaseIsRefused | kailab/sshserver/gitpack_parse.go:237-251 | A generated delta applied to a base of another size is refused. |
| DeltaCodec.BadInstructionIsRefused | kailab/sshserver/gitpack_parse.go:252-309 | After any good instructions, a copy that leaves the base and an insert that is cut short are refused. |
| DeltaLimit.LongMatchIsTruncated | kailab/sshserver/delta.go:222-281 | The 2^24 bound is sharp: for every length from 2^24 on there is a file whose delta against itself exists but does not restore it. |
| Hex.HexRoundTrip | kailab/sshserver/gitpack.go:245-249 | Object names: decoding the hexadecimal form gives back the hash. |
| Hex.HexInjective | kailab/sshserver/gitpack.go:245-249 | Distinct hashes have distinct names. |
| GitPack.EncodeObjectHeader | kailab/sshserver/gitpack.go:226-243 | The loop writes the specified type and size header. |
| GitPack.HeaderRoundTrip | kailab/sshserver/gitpack_parse.go:151-166 | Types 0 to 7 with any 63-bit size are read back from their header, consuming exactly its bytes. |
| GitPack.ParseObjectHeader | kailab/sshserver/gitpack_parse.go:151-166 | The header loop equals the specified reading, including running out of bytes. |
| GitPack.WritePackWithDeltas | kailab/sshserver/gitpack.go:195-224 | The writer produces magic, version, count, entries and checksum, or fails on an undecodable base name. |
| GitPack.PackShape | kailab/sshserver/gitpack.go:195-224 | A pack is written exactly when every candidate is a commit, tree or blob or has a base name of 20 bytes; it begins with magic, version and count and ends with the checksum of all before it. |
| GitPack.WriteCandidate | kailab/sshserver/gitpack.go:160-185 | One entry is a full object or a base name with a compressed delta. |
| GitPack.ParseGitPack | kailab/sshserver/gitpack_parse.go:25-141 | The two-pass parser equals its specification: full objects first, then deltas in order against the pack or the existing objects, with each error. |
| GitPack.ParseRejects | kailab/sshserver/gitpack_parse.go:25-43 | Short data, a wrong magic and a wrong version are refused as such, and nothing else is. |
| GitPack.ApplyDeltas | kailab/sshserver/gitpack_parse.go:112-138 | The delta pass resolves each delta against what is known by then. |
| GitPack.ResolveOne | kailab/sshserver/gitpack_parse.go:112-138 | One delta is skipped when its base is unknown, and else makes an object of the base's kind under its own name, or fails. |
| GitPack.ResolveConcat | kailab/sshserver/gitpack_parse.go:112-138 | Deltas go on with what the ones before left; after an error no more are looked at. |
| GitPack.UnknownBaseSkipsOnlyItself | kailab/sshserver/gitpack_parse.go:112-138 | A delta whose base is not known by then leaves the result as it would be without it. |
| PackRoundTrip.EntryRoundTrip | kailab/sshserver/gitpack_parse.go:44-110 | One written entry is read back, consuming exactly its bytes. |
| PackRoundTrip.OtherEntries | kailab/sshserver/gitpack_parse.go:63-110 | An offset delta is read and passed over, with its offset of any length; tags and types that are none are refused. |
| PackRoundTrip.PackRoundTrip | kailab/sshserver/gitpack_parse.go:25-141 | For candidates with correct names and resolvable, same-type, earlier-available bases, parsing the written pack gives exactly the map from name to object of the candidates. |
| PackRoundTrip.ThinPackRoundTrip | kailab/sshserver/gitpack_parse.go:25-141 | The same for deltas the generator made against bases sent in full, sent before as a delta or already with the receiver, with base or object below 2^24 bytes. |
| PktLine.HeaderRoundTrip | kailab/sshserver/protocol.go:30-46 | A length header is read back as the length and is the delimiter only for length 1. |
| PktLine.PacketRoundTrip | kailab/sshserver/protocol.go:90-117 | A written packet is read as one data packet with its payload. |
| PktLine.ReadsEveryLength | kailab/sshserver/protocol.go:90-117 | For every length header: flush, delimiter, the lengths 2 and 3 refused, a payload of exactly the rest of the length, or one cut short refused. |
| PktLine.ChunksCut | kailab/sshserver/protocol.go:136-153 | The chunks are non-empty, at most maxData long and concatenate to the input. |
| PktLine.SideBandRoundTrip | kailab/sshserver/protocol.go:136-153 | For any bytes and maxData from 1 to 65530, reading the output gives only data packets carrying the channel byte, whose tails concatenate to the input, each at most maxData+5 bytes on the wire. |
| PktLine.PktWriter.WritePktLineBytes | kailab/sshserver/protocol.go:30-46 | A payload that is too long is refused and nothing is written; otherwise the packet, or a part of it when the underlying writer fails. |
| PktLine.SideBandWriter.Write | kailab/sshserver/protocol.go:136-153 | The loop appends exactly the framed chunks and reports all bytes; when the underlying writer fails, whole packets and a part of the next, and the bytes of the whole ones; nothing when a packet would be too long. |
| PktLine.PktReader.ReadPktLineV2 | kailab/sshserver/protocol.go:90-117 | The reader consumes and classifies one packet as specified: flush, delimiter, data, and each malformed header. |
| GitGraph.Collector.TreeWalk | kailab/sshserver/gitpack_parse.go:376-395 | The recursive closure with its shared visited set equals the specified tree walk; it ends on cyclic maps. |
| GitGraph.Collector.CommitWalk | kailab/sshserver/gitpack_parse.go:397-434 | The commit closure with its depth limit equals the specified walk, or panics exactly when the specification does. |
| GitGraph.CollectCommitObjectsWithDepth | kailab/sshserver/gitpack_parse.go:370-438 | The returned objects and shallow list are the specified walk's, unless it panics on a short tree line. |
| GitGraphReach.CollectionIsSound | kailab/sshserver/gitpack_parse.go:370-438 | On any object map on which the walk does not panic, no object is returned twice and every one is present and reachable from the tip. |
| GitGraphReach.CollectsExactlyTheReachable | kailab/sshserver/gitpack_parse.go:370-438 | Unlimited and without a panic, where what the tip reaches is well typed (parents are commits, tree entries are not), exactly the present reachable objects are returned. |
| GitGraphReach.DepthLimit | kailab/sshserver/gitpack_parse.go:421-433 | Where the walk does not panic: with a limit, every commit returned is within that many commits of the tip, and each is listed as shallow or has all its present parents returned. |
| GitGraphReach.ShallowListed | kailab/sshserver/gitpack_parse.go:421-433 | Only returned commits with parents are listed as shallow. |
| GitGraphDepth.ShallowAtTheLimit | kailab/sshserver/gitpack_parse.go:421-433 | On any map, each commit listed as shallow ends a path over parents from the tip of exactly as many commits as the limit; without a limit none is listed. |
| GitGraphReach.DepthOne | kailab/sshserver/gitpack_parse.go:370-438 | Where the walk does not panic: with depth 1, where what the tip's tree reaches is well typed, exactly the tip and everything reachable from its tree are returned, whatever its parents are. |
| GitGraphReach.ListedCommitIsLost | kailab/sshserver/gitpack_parse.go:376-395 | A concrete map, where a tree lists a commit, on which the unlimited collection misses a reachable object. |
| GitGraphDepth.CommitBringsItsTree | kailab/sshserver/gitpack_parse.go:415-419 | Where the walk does not panic: at any limit, a returned commit brings everything its tree reaches. |
| GitGraphDepth.DetourLosesTheLast | kailab/sshserver/gitpack_parse.go:397-434 | The first visit fixes a commit's depth: for every limit from 3 on, a map on which a commit within the limit is not returned, broken or not. |
| GitGraphDepth.CompleteLimits | kailab/sshserver/gitpack_parse.go:370-438 | Where the walk does not panic: a limit returns everything it allows, on every well-typed map, if and only if it is 0 (no limit), 1 or 2. |
| GitGraphDepth.PanicNeedsBroken | kailab/sshserver/gitpack_parse.go:397-434 | At every limit, on a well-typed map, collection panics only if the limit allows a commit whose tree line is too short to slice. |
| GitGraphDepth.BrokenPanics | kailab/sshserver/gitpack_parse.go:397-434 | Without a limit, and with limit 1 or 2, it panics if and only if there is such a commit: the map alone decides. |
| GitGraphDepth.PanicLimits | kailab/sshserver/gitpack_parse.go:397-434 | That equivalence holds on all well-typed maps if and only if the limit is 0 (none), 1 or 2; from 3 on a detour hides such a commit. |
| GitGraphDepth.ListedBrokenCommitPasses | kailab/sshserver/gitpack_parse.go:376-395 | Why types are needed there: a concrete map on which a tree lists such a commit, and it is returned without a panic. |
| GitGraphRoles.WalksAsTrimmed | kailab/sshserver/gitpack_parse.go:370-438 | On any map where no name is met both as a parent and in a tree, the walk, its shallow list and its panics are, at every limit, those on the well-typed map in which misplaced objects (commits only trees list, parents that are no commits) have no links. |
| GitGraphRoles.ReturnsTheClearlyReached | kailab/sshserver/gitpack_parse.go:370-438 | On such a map the unlimited collection panics exactly when a broken commit is reached as a parent without passing through a misplaced object; otherwise it returns exactly the present objects so reached. |
| GitGraphRoles.CompleteIffNothingHidden | kailab/sshserver/gitpack_parse.go:370-438 | There it is complete if and only if every present reachable object is reachable without passing through a misplaced one. |
| GitGraphRoles.ParentOrderDecides | kailab/sshserver/gitpack_parse.go:376-434 | A name met in both roles: two maps that differ in the order of two parents, one with and one without a reachable object missing. |
| TreeEntries.ParseTreeEntries | kailab/sshserver/gitpack_parse.go:446-478 | The offset loop equals the specified entry-by-entry reading, stopping at the first incomplete entry. |
| TreeEntries.TreeRoundTrip | kailab/sshserver/gitpack_parse.go:446-478 | Entries without NUL in names or space in modes are read back in order, names of objects in lower case. |
| TreeEntries.ReadsWholeEntries | kailab/sshserver/gitpack_parse.go:446-478 | For any bytes: a whole entry is taken and reading goes on with the rest; where there is none it stops. |
| TreeEntries.SortEntries | kailab/sshserver/snapshot_adapter.go:219-221 | Sorting permutes the entries into ascending byte order of name. |
| TreeEntries.WriteEntries | kailab/sshserver/snapshot_adapter.go:223-231 | The bytes of all entries in order, or an error exactly when a name of an object is not 20 bytes of hexadecimal. |
| TreeEntries.SplitJoins | kailab/sshserver/snapshot_adapter.go:168 | Splitting at a separator gives parts without it that make up the text again. |
| SnapshotTree.InsertPath | kailab/sshserver/snapshot_adapter.go:167-186 | Inserting a path in place makes the node tree represent the file map with the last write to the normalised path; empty parts are skipped and a trailing slash names no file. |
| SnapshotTree.WrittenLands | kailab/sshserver/snapshot_adapter.go:167-186 | Writing a path changes exactly the file at its non-empty parts in order, and nothing if its last part is empty. |
| SnapshotTree.CleanPathLands | kailab/sshserver/snapshot_adapter.go:167-186 | A path without empty parts lands at its parts, which joined are the path again, so different such paths are different files. |
| SnapshotTree.NonEmptyConcat | kailab/sshserver/snapshot_adapter.go:170-175 | Leaving out empty parts goes part by part. |
| TreeObjects.ListedIsFaithful | kailab/sshserver/snapshot_adapter.go:194-237 | One level: a tree object whose entries list what lies below resolves every path to exactly the file there. |
| TreeObjects.BuildTreeObjects | kailab/sshserver/snapshot_adapter.go:194-237 | For the whole tree: it succeeds exactly when all object names below are valid, and then following paths through the built objects finds exactly the files below, in every store that holds the objects; each tree is sorted by name and lists only built trees and files. |
| TreeObjects.BuildTreeFromFiles | kailab/sshserver/snapshot_adapter.go:130-160 | From a snapshot with NUL-free paths, in every store that holds the trees, a path resolves to exactly the content of the last readable entry that was written there, and to nothing otherwise; the root is among the trees, which list only each other and such contents. |
| TreeObjects.FilesAreLastWrites | kailab/sshserver/snapshot_adapter.go:137-153 | A path has a content if and only if some readable entry whose path lands there has it and no later readable one lands there. |
| TreeObjects.StoreHoldsAll | kailab/sshserver/snapshot_adapter.go:194-237 | A store holding all built objects exists unless two of them collide in name. |
| CommitText.ExtractTreeOID | kailab/sshserver/gitpack_parse.go:339-347 | The line loop returns the first tree line's name, or panics on a short one. |
| CommitText.ExtractParentOIDs | kailab/sshserver/gitpack_parse.go:350-359 | The line loop returns the names of all long enough parent lines, in the message too. |
| CommitText.BuildCommitObject | kailab/sshserver/gitpack.go:98-110 | The builder's text is the specified commit. |
| CommitText.CommitLines | kailab/sshserver/gitpack.go:98-110 | Line by line what a synthetic commit says, for a ref name and target without line breaks. |
| CommitText.FixedText | kailab/sshserver/gitpack.go:98-110 | The fixed lines and line beginnings, as text. |
| CommitText.CommitReadsBack | kailab/sshserver/gitpack.go:98-110 | The tree is read back from a synthetic commit, and parents are found exactly where the ref name or target contains a line break. |
| CommitText.ParentsAreTheHeaders | kailab/sshserver/gitpack_parse.go:350-359 | The parents read from a commit are its header's if and only if its message has no line that looks like a parent line. |
| CommitText.QuotedParentIsRead | kailab/sshserver/gitpack_parse.go:350-359 | A concrete commit without a parent whose message adds one. |
| CommitText.ResolvedIsReachable | kailab/sshserver/gitpack_parse.go:376-395 | What a path resolves to in the trees is reachable in the graph that collection walks. |
| SnapshotFetch.BuiltIsTyped | kailab/sshserver/snapshot_adapter.go:130-237 | In every object map that holds what was built for a snapshot, what its tree reaches is well typed. |
| SnapshotFetch.SnapshotIsDelivered | kailab/sshserver/gitpack.go:50-64 | In every such map a fetch of depth 1 of the synthetic commit over a snapshot's tree does not panic and returns the content of every file of the snapshot; so does the walk without a limit, if no parent line is read. |
| SnapshotFetch.BuildRefSnapshot | kailab/sshserver/gitpack.go:363-388 | The blobs, trees and commit built for a ref: in every object map that holds them, a fetch of depth 1 of the commit delivers the snapshot. |
| SnapshotFetch.ObjectsFor | kailab/sshserver/gitpack.go:46-79 | What is sent for one wanted ref: with a depth the walk over the map of its objects, or its panic; without one its objects, the first of each name. |
| SnapshotFetch.FetchSnapshot | kailab/sshserver/gitpack.go:46-79 | From snapshot to answer, at depth 0 or 1: for NUL-free paths and no collision of names, no panic, and the commit and the content of every entry not overwritten by a later readable one are sent; never a name twice or an object that was not built. |
| CommitText.CollectionPanics | kailab/sshserver/gitpack_parse.go:339-347 | For real objects, well typed from the tip: collection panics only if the limit allows a commit with a short tree line, and without a limit or with limit 1 or 2 exactly then. |
| ObjectGraph.ParentsAreTheLines | kailab/sshserver/gitpack_parse.go:350-359 | The parents read are bytes 7 to 47 of all lines that begin with "parent " and have 47 bytes, in line order. |
| ObjectGraph.TreeIsTheFirstLine | kailab/sshserver/gitpack_parse.go:340-348 | The first line that begins with "tree " decides: its bytes 5 to 45, or the panic when it is shorter. |
| ObjectGraph.NodeOrder | kailab/sshserver/gitpack_parse.go:397-434 | The walk takes a commit's parents in the order of their lines, and what a tree lists in the order of its entries. |
| ObjectGraph.LinksInTheBytes | kailab/sshserver/gitpack_parse.go:370-438 | For any object map, the links the walk follows are exactly those in the bytes of commits and trees. |
| ObjectGraph.CollectsWhatTheBytesLeadTo | kailab/sshserver/gitpack_parse.go:370-438 | Where what the tip leads to is well typed, with links and types read from the bytes: the unlimited walk panics exactly when the tip leads to a commit with a short tree line, and otherwise returns exactly the present objects it leads to. |
| CommitText.EmptyTreeNamePanics | kailab/sshserver/gitpack_parse.go:339-347 | A concrete commit on which every collection panics. |
| EditDistance.LevenshteinDistance | kai-core/detect/rename.go:130-169 | The two-row loop with its swapped arrays computes the recursive distance. |
| EditDistance.DistanceIsLeastCost | kai-core/detect/rename.go:130-169 | The distance is the least cost of an edit script from one string to the other, and some script has it. |
| EditDistance.Symmetric | kai-core/detect/rename.go:130-169 | The distance is symmetric. |
| EditDistance.Triangle | kai-core/detect/rename.go:130-169 | The distance obeys the triangle inequality. |
| EditDistance.ZeroOnlyOnEqual | kai-core/detect/rename.go:130-169 | The distance is zero exactly on equal strings. |
| EditDistance.Bounds | kai-core/detect/rename.go:130-169 | At every table cell the distance lies between the length difference and the longer length. |
| EditDistance.SimilarityLaws | kai-core/detect/rename.go:112-127 | Similarity lies in [0, 1], is 1 exactly on equal strings and is symmetric. |
| EditDistance.SimilarityCountsEdits | kai-core/detect/rename.go:112-127 | The similarity is at least 1 - k/n, n the longer length, if and only if k edits suffice. |
| Renames.DetectRenames | kai-core/detect/rename.go:31-108 | Each rename pairs a removed with an added function above the threshold, none twice; each choice is the most similar one still free, and no removed function is left that could be paired. |
| CommonSubsequence.LongestCommonSubsequence | kailab/api/routes.go:2189-2222 | The table loops and the backtracking loop return the specified trace. |
| CommonSubsequence.TraceHasTableLength | kailab/api/routes.go:2206-2221 | Table and backtrack agree at every (i, j). |
| CommonSubsequence.LongestOfAll | kailab/api/routes.go:2189-2222 | The result is a subsequence of both inputs and no common subsequence is longer. |
| UnionFind.Compressed | kai-core/intent/cluster.go:441-446 | Path compression keeps the parent array a forest with the same representatives. |
| UnionFind.UnionFind.Find | kai-core/intent/cluster.go:441-446 | Find ends and returns the representative, changing no representative. |
| UnionFind.UnionFind.Union | kai-core/intent/cluster.go:448-453 | Union joins exactly the two classes. |
| DependencyClusters.LabelsAreComponents | kai-core/intent/cluster.go:455-476 | When every relation has been joined and nothing else, two files share a label exactly when they are connected. |
| DependencyClusters.NeighboursConnected | kai-core/intent/cluster.go:418-494 | Files that import one another or share a directory are connected. |
| DependencyClusters.OnlyNeighboursConnect | kai-core/intent/cluster.go:418-494 | A connection between two different files begins with an import either way or a shared directory. |
| DependencyClusters.ClusterByDependency | kai-core/intent/cluster.go:418-494 | For any iteration order: two files' signals share a group exactly when the files are connected by imports between present files or same-directory edges; every signal is kept. |
| ChangeClusters.GroupBy | kai-core/intent/cluster.go:376-415 | Each group is exactly the signals with its key, in order, and the groups together are the input. |
| ChangeClusters.GroupByModule | kai-core/intent/cluster.go:376-400 | Each module's group is its signals in order, and every signal is in one. |
| ChangeClusters.ModuleOfFirst | kai-core/intent/cluster.go:376-400 | A signal is of the module of its first path that has one, or of the default. |
| ChangeClusters.GroupByFile | kai-core/intent/cluster.go:403-415 | Each file's group is the signals whose first path it is, in order. |
| ChangeClusters.ClusterModule | kai-core/intent/cluster.go:79-111 | One module's clusters are its components: no file in two places, all somewhere, two in one cluster if and only if connected, each cluster its files' signals one file after another. |
| ChangeClusters.ShareComponentIff | kai-core/intent/cluster.go:79-111 | Two signals of a module are in one component if and only if their first files are connected. |
| ChangeClusters.MergeInto | kai-core/intent/cluster.go:516-525 | A small cluster's signals go to the first cluster that shares a module, and to no other. |
| ChangeClusters.MergeSmallClusters | kai-core/intent/cluster.go:497-533 | For each module, in order: its clusters of two or more stay, the first of them extended by all signals of the small ones in order; without one the small ones make one cluster. |
| ClusterPieces.RegroupedKeeps | kai-core/intent/cluster.go:497-533 | What merging makes of a module's clusters, one by one: their number, the ones that stay, and what the first gains. |
| ClusterPieces.RegroupedBag | kai-core/intent/cluster.go:497-533 | Merging loses and doubles no signal. |
| ClusterPieces.BigsAre | kai-core/intent/cluster.go:502-511 | Two signals or more make a cluster one that stays. |
| ChangeClusters.AssignGroups | kai-core/intent/cluster.go:175-195 | The leader-by-leader loop puts every signal with the first earlier leader affine to it, or makes it a leader. |
| ChangeClusters.FirstFitIsUnique | kai-core/intent/cluster.go:175-195 | That assignment is the only one with the property. |
| ChangeClusters.SplitBySymbolAffinity | kai-core/intent/cluster.go:153-220 | Above two signals, one cluster per group of the assignment, no signal lost. |
| ChangeClusters.SplitLargeClusters | kai-core/intent/cluster.go:136-150 | For each module, in order: a cluster stays unless it has more than eight signals and too little cohesion; then its first-fit groups take its place. |
| ChangeClusters.SortByScore | kai-core/intent/cluster.go:125-130 | The order is a permutation in descending score. |
| ChangeClusters.ClusterChanges | kai-core/intent/cluster.go:70-133 | Each module's clusters are, in some order, its components, the small ones merged and the loose ones cut; all signals are there once, no cluster is empty or mixes modules, and scores descend. |
| ChangeClusters.ComponentsStand | kai-core/intent/cluster.go:72-141 | When no component has a single signal and none is loose, the clusters are exactly the components. |
| RefStore.RefTable.SetRefFF | kailab/store/sqlite.go:309-385 | The steps in place equal the specified operation, with what is left behind when the history insert fails. |
| RefStore.RefTable.ForceSetRef | kailab/store/sqlite.go:388-452 | The same for the forced update. |
| RefStore.RefTable.DeleteRef | kailab/store/sqlite.go:456-515 | The same for deletion. |
| RefStore.RefTable.Transaction | kailab/store/sqlite.go:309-515 | All operations of a transaction or, after rollback, none. |
| RefStore.CommitRecordsAll | kailab/store/sqlite.go:309-515 | A transaction that goes through adds one row per operation, in order, with what its ref was before it; every ref is then as its last operation leaves it, and every other ref as it was. |
| RefStore.CommitFailsIff | kailab/store/sqlite.go:309-515 | It fails if and only if the operations before some one go through and that one does not fit what they leave, or its entry's id is already there; then nothing has changed. |
| RefStore.ExecOutcome | kailab/store/sqlite.go:309-515 | One operation in a transaction: when it goes through, with which error it does not, and everything it changes. |
| RefStore.SwapOutcome | kailab/store/sqlite.go:309-385 | A compare-and-swap succeeds exactly when the ref has the expected value, the target is not nil and the entry is new; otherwise nothing changes. One row records it, and no other ref changes. |
| RefStore.ForceOutcome | kailab/store/sqlite.go:388-452 | A forced update succeeds exactly when the target is not nil and the entry is new; one row records the old and new target, and no other ref changes. |
| RefStore.DeleteOutcome | kailab/store/sqlite.go:456-515 | A deletion succeeds exactly when the ref exists, has the expected value if one is given, and the entry is new; one row records it, and no other ref changes. |
| RefStore.ExecKeepsConsistent | kailab/store/sqlite.go:309-515 | An operation that goes through keeps refs and per-ref logs in step and only appends to the history. |
| RefStore.RunKeepsConsistent | kailab/store/sqlite.go:309-515 | After any run of transactions every ref is at its last entry's target (absent after a deletion), every old target and parent is what the entry before left, and ids are distinct. |
| RefStore.EveryRunIsConsistent | kailab/store/sqlite.go:309-515 | The same for every run that starts from an empty store. |
| RefStore.ColumnsSufficeIffNoEmptyTarget | kailab/api/routes.go:655-658 | The target columns alone tell refs from deletions if and only if no set stored an empty target, which the handlers refuse. |
| RefStore.EmptyTargetLooksDeleted | kailab/store/sqlite.go:309-385 | A concrete empty target that is stored but reads as a deletion. |
| RefStore.HeadCommitsToLog | kailab/store/sqlite.go:334-382 | Two logs with the same head id agree in content entry by entry, or two of their entries show a hash collision. |
| RefStore.HeadCommitsToRows | kailab/store/sqlite.go:334-382 | Without empty targets the rows themselves agree. |
| BigEndian.Uint32RoundTrip | kailab/pack/segment.go:163-166 | A 32-bit length is written modulo 2^32 and read back. |
| SegmentStore.BuildPack | kailab/pack/segment.go:138-189 | The pack is the compressed length, header and contents, with each object's offset and length. |
| SegmentStore.SegmentDb.IndexObjects | kailab/pack/segment.go:95-127 | The indexing loop equals the specified one, with its first fault. |
| SegmentStore.SegmentDb.IngestSegment | kailab/pack/segment.go:36-134 | Ingestion in place with rollback equals the specified step, with each way it fails. |
| SegmentStore.SegmentDb.ExtractObject | kailab/pack/segment.go:209-226 | Extraction returns the specified slice and kind or error. |
| SegmentStore.IngestKeepsSound | kailab/pack/segment.go:36-134 | After ingesting anything every indexed digest is still the hash of its slice, readable objects keep bytes and kind, and a failure changes nothing. |
| SegmentStore.RunKeepsSound | kailab/pack/segment.go:36-134 | The same over any run of ingests. |
| SegmentStore.BuiltPackIngests | kailab/pack/segment.go:36-189 | A built pack is ingested if and only if its header is at most 10MB and its digests are right; then each object reads as the first one stored under its digest. |
| SegmentStore.ReadsContentOrCollision | kailab/pack/segment.go:209-226 | What is then read is the object's own content, or a different text with the same hash. |
| BatchRead.GetSegmentBlobByID | kailab/store/postgres.go:922-943 | Whatever the external copy does, the segment's stored bytes are returned, or that there is no such segment. |
| BatchRead.ExtractObject | kailab/pack/segment.go:351-381 | Whatever the external copy does, the single read is the specified extraction; of a row that spills over its segment's end it may also be what is left of the segment. |
| BatchRead.ReadExternal | kailab/store/postgres.go:1032-1049 | Object by object until one read fails; what was written so far is right. |
| BatchRead.ReadInline | kailab/store/postgres.go:1051-1065 | The fallback serves all of a segment's objects from its blob, but for rows beyond it. |
| BatchRead.BatchGetObjects | kailab/store/postgres.go:981-1069 | For any pattern of external failures and any index of non-negative rows, the batch has the requested digests that extraction finds, and its entries are results of the single read; if no requested row spills it has exactly those digests, with the same bytes and kind. |
| BatchRead.OneReadIffNoSpill | kailab/pack/segment.go:351-381 | The reads of a digest come to one and the same result if and only if its row does not spill. |
| BatchRead.SoundRowsFit | kailab/pack/segment.go:36-134 | Every index that ingestion leaves is one of non-negative rows that do not spill. |
| RepoRegistry.Registry.CloseRepo | kailab/repo/registry.go:343-360 | Only a handle not yet closed is closed; it leaves map and list, which stay matched. |
| RepoRegistry.Registry.Touch | kailab/repo/registry.go:363-375 | The handle moves to the front; for one closed meanwhile the list stays as it is. |
| RepoRegistry.Registry.LeastRecentInactive | kailab/repo/registry.go:378-391 | Scanning from the back finds the least recently touched handle not in use, or that there is none. |
| RepoRegistry.Registry.EvictOne | kailab/repo/registry.go:378-391 | Exactly that handle is closed, or nothing when all are in use. |
| RepoRegistry.Registry.MakeRoom | kailab/repo/registry.go:297-302 | Handles in use stay open; of the others none is closed that was touched later than one kept, and no more than needed. |
| RepoRegistry.Registry.OpenRepo | kailab/repo/registry.go:294-340 | Afterwards the count is at most MaxOpen or every other handle is in use; the new handle is in front. |
| RepoRegistry.Registry.Get | kailab/repo/registry.go:98-135 | An open repository is touched and returned; one on disk is opened; map and list stay matched. |
| RepoRegistry.Registry.Create | kailab/repo/registry.go:138-174 | Fails without change when the repository exists on disk or is open. |
| RepoRegistry.Registry.Delete | kailab/repo/registry.go:234-253 | The repository's handle is closed, in use or not, and nothing else. |
| RepoRegistry.Registry.Close | kailab/repo/registry.go:272-282 | Every open handle is closed, none twice. |
| RepoRegistry.Registry.ReapIdle | kailab/repo/registry.go:409-429 | Exactly the handles not in use and last used before the cutoff are closed. |
| RepoRegistry.Registry.Acquire | kailab/repo/registry.go:256-261 | One more use and the time of it; map, list and order of handles stay. |
| RepoRegistry.Registry.Release | kailab/repo/registry.go:264-269 | One use less and the time of it; map, list and order of handles stay. |
| RepoRegistry.TouchKeepsPaired | kailab/repo/registry.go:370-375 | Moving to the front keeps map and list one to one. |
| ObjectCache.LRUObjectStore.Get | kailab/sshserver/object_store.go:67-77 | A hit returns the object and moves it to the front; a miss changes nothing. |
| ObjectCache.WhatIsUsed | kailab/sshserver/object_store.go:67-111 | What counts as a use: getting an object that is held, and putting one with a name into a cache with room; asking whether one is there does not. |
| ObjectCache.LRUObjectStore.Has | kailab/sshserver/object_store.go:79-84 | Presence, without counting as a use. |
| ObjectCache.LRUObjectStore.Put | kailab/sshserver/object_store.go:86-111 | The map and list in place refine one step of the bounded list; an empty name or a zero capacity is ignored. |
| ObjectCache.RunIsRecency | kailab/sshserver/object_store.go:67-111 | After any run the cache is the first max entries of the unbounded recency list of its uses. |
| ObjectCache.HeldIff | kailab/sshserver/object_store.go:67-111 | An object is held exactly when fewer than max distinct other names were used since its last use. |
| ObjectCache.HoldsLastPut | kailab/sshserver/object_store.go:86-111 | Every object held is the last one put under its name. |
| ThreeWayMerge.UnchangedSideYields | kai-core/merge/merge.go:197-255 | A unit side equivalent to the base yields the other side. |
| ThreeWayMerge.CleanMergeOfTwoChanges | kai-core/merge/merge.go:282-350 | Two differing changes merge cleanly if and only if they are to a function or method and exactly one changes its signature; that side wins. |
| ThreeWayMerge.EquivalentChangesMerge | kai-core/merge/merge.go:197-398 | Two equivalent changes of a unit merge to either, unless they give a function or method two different new signatures. |
| ThreeWayMerge.ConflictTellsWhy | kai-core/merge/merge.go:197-398 | A conflict has the three versions as they are, the base's key (of two creations the left one's), and the kind of what happened. |
| ThreeWayMerge.SwapMirrors | kai-core/merge/merge.go:197-398 | Swapping the sides gives an equivalent unit or the mirrored conflict. |
| ThreeWayMerge.MergeUnits | kai-core/merge/merge.go:142-194 | For any iteration order: each key has its own outcome, the conflicts are those of the conflicting keys, each once. |
| ThreeWayMerge.UnitSurvives | kai-core/merge/merge.go:142-194 | A unit that one side left as it was survives as the other side has it. |
| ThreeWayMerge.MergeFile | kai-core/merge/merge.go:66-117 | One file: the same change and the change of one side are taken; two different changes with a version missing are a conflict that says which was deleted or that both created it; else failure of extraction or the merge of units. |
| ThreeWayMerge.BothSidesChanged | kai-core/merge/merge.go:66-117 | A file changed on both sides: the result for every combination of missing and differing versions. |
| ThreeWayMerge.MergeFiles | kai-core/merge/merge.go:22-63 | Files are merged independently; it fails exactly when one is unreadable. Path by path: a side that did not change it yields, the same change is taken, and of two different changes with a version missing the conflict is reported and nothing is kept. With a side equal to the base, the result is the other side's map without conflicts. |
| ThreeWayMerge.PathInMaps | kai-core/merge/merge.go:22-63 | The same, of any outcomes and any order of the paths. |
| ThreeWayMerge.NothingToExtract | kai-core/merge/merge.go:66-117 | With a side equal to the base no file's units are looked at, so no file is unreadable. |
| ThreeWayMerge.UnchangedMapYields | kai-core/merge/merge.go:22-117 | The outcomes of a whole map with a side equal to the base make exactly the other side's map, without conflicts. |
| ThreeWayMerge.SwappedUnitsAreEquivalent | kai-core/merge/merge.go:142-194 | Swapping the sides of a file's units leaves the same keys with equivalent units. |
| ThreeWayMerge.SwappedFile | kai-core/merge/merge.go:66-194 | Swapping the sides of a file: the same content, or content rebuilt from equivalent units when units were merged; conflicts mirrored one to one; failures stay. |
| ThreeWayMerge.SwappedMaps | kai-core/merge/merge.go:22-63 | Swapping the sides of whole maps keeps success, mirrors the conflicts one to one, all in all and file by file, and the same files come through, with the same content where no units were looked at. |

## Left out

- DeltaFormat.ApplyDelta: does not model the failure of an allocation of the announced result size; the code does not compare that size with the result, and neither does the model.
- DeltaCodec.DeltaRoundTrip: for sources beyond 2^32 bytes only DeltaRoundTripExactly is claimed, because the encoding loses the upper part of offsets.
- PackRoundTrip.PackRoundTrip: assumes that delta bases are available in order; the choice of bases may be cyclic (kailab/sshserver/pack_builder.go:72-113).
- GitPack.ParseGitPack: does not model the failure of an allocation of an announced object size; an offset delta (type 6) is read and skipped, as in the code, and never resolved; the search for the end of a zlib stream (kailab/sshserver/gitpack_parse.go:188-216) is part of the inflate parameter.
- GitGraphReach.DepthLimit: completeness for limits above 2 is false of the code, as GitGraphDepth.CompleteLimits says; DepthOne covers the one limit that is used.
- GitGraphRoles.CompleteIffNothingHidden: where a name is met both as a parent and in a tree there is the example ParentOrderDecides and no exact condition, for completeness or for panics: it depends on which walk meets the name first.
- TreeObjects.BuildTreeObjects: assumes names without NUL for the parse-back; trees are sorted by plain name, not in Git's own tree order.
- TreeObjects.BuildTreeFromFiles: reading a snapshot's file list and contents from the database is the extract parameter.
- SnapshotFetch.FetchSnapshot: assumes that no two of the objects made collide in name; refs that resolve to pushed packs, names the receiver already has, and several wanted refs at once are not modelled.
- CommitText.ExtractTreeOID: a slice expression is bounded by capacity in Go, so a short tree line that ends the data need not panic when the buffer has spare room; the model takes it to panic.
- SegmentStore.SegmentDb.IndexObjects: for the same reason the error text for a digest of less than eight bytes need not panic; either way the ingestion fails and changes nothing.
- EditDistance.SimilarityLaws: similarity is a real number; floating-point rounding is not modelled.
- Renames.DetectRenames: similarities are compared as real numbers, without rounding; the confidence and evidence of a signal are not modelled, only which functions are paired and how similar they are.
- DependencyClusters.ClusterByDependency: filepath.Dir is a parameter.
- ChangeClusters.ClusterChanges: cohesion, affinity and weight are parameters over the reals; identifiers, file lists, areas, types and sub-intents of clusters are not modelled; the affinity matrix is consulted as a function.
- RefStore.RefTable.Transaction: transactions are atomic steps; interleaved transactions and the Postgres variant, which reads without locking, are not modelled. A batch over HTTP that reports single failures and commits the rest is not modelled.
- RefStore.HeadCommitsToLog: the JSON encoding is part of the digest parameter, so a collision it exhibits may be one of the encoding.
- SegmentStore.SegmentDb.IngestSegment: segments are numbered by position; the publish log and the enrichment queue are not modelled; a stream that breaks off in decompression fails without saying at which point.
- BatchRead.BatchGetObjects: rows with a negative offset or length, which ingestion never writes, panic in both readers and are not modelled; errors of the database itself are not modelled, only failures of the external copy. A non-empty answer of the external copy is taken to be the stored bytes, or what is left of them when the range runs past their end; a range that starts at or past the end is taken to fail.
- RepoRegistry.Registry.Get: the lock is one atomic step; nothing is claimed about a handle that was returned but not yet acquired. Whether a repository exists on disk and whether it opens are parameters.
- RepoRegistry.Registry.ReapIdle: the ticker that calls it, the enrichment worker and 32-bit wrap-around of the use counter are not modelled.
- ThreeWayMerge.MergeUnits: unit extraction and the rebuilding of a file from units are parameters; rebuilding is taken to be deterministic, while the code's unstable sort may put units that start at the same position in either order; whether a rebuilt file keeps all content is not claimed. Messages of conflicts are not modelled.
- The plain in-memory object store, flush and delimiter packets as written, and the other framing helpers would only add easy members.
- SQL, HTTP handlers, SSH sessions, webhooks, the external blob service, authentication, mail, scheduling, telemetry, the frontend and the command line are not part of this model.
