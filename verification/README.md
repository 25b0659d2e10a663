# dfdisk, modelled and verified

dfdisk acquires and converts forensic disk images. This project models the parts of it where a mistake would cost
evidence, and proves what they guarantee.

* **Write protection** (`BlockGraph` to `FreezeExamples`, with `FreezeNotes` and `MaybeMounts`). sysfs is a finite
  graph of block devices with partitions, holders, slaves, loop devices, byte ranges and read-only flags. The
  worklists over it (what depends on a device, what a device is stored on, which loop devices show its bytes) are
  loops over the same collections as in the source; the decision which nodes to set read-only and its enforcement
  follow. The main result: no node is frozen that a device mounted outside the source tree depends on, for closures
  within the bound of the walks.
* **Pieces** (`Pieces` to `PiecesEndToEnd`, `ImageReader`). The streaming hasher, the writer and reader of the pieces
  file, the streaming checker and the multi-file image reader are classes proved against functions of the whole
  stream; together they give the end-to-end statement. The hash is any function to 64 lower-case hexadecimal digits. A
  hash state is the bytes fed to it.
* **ddrescue maps** (`MapParser`, `MapAccepted`, `DdrescueMap`, `ReadErrorTable`, `BadSectors`). The parser, the
  tiling check, the table of unread and zero-filled ranges with its sweep, and the assessment that gives each byte of
  the source one fate.
* **Step protocols** (`MountTable`, `UnmountRefusals`, `Unmount`, `Progress`, `ProgressRuns`, `Signals`). The unmount
  run with its refusals, order and re-check; the progress sink with every interleaving of its clones and the consumer;
  the abort flags with every interleaving of their atomic steps.
* **Conversion rules** (`SegmentNames`, `SplitSegments`, `EwfSegments`, `Verdict`). Segment sets that are complete or
  refused, and the verification verdict.

Code of the source that changes variables step by step is a method with loop invariants or a class; what is promised
of it is proved of the function or predicate in its contract. Where the text says "u64", the values have the type
`u64` of `MachineInts`, and operations saturate where the source's do.

## What the proofs found

Promises that hold under a condition only. The condition, or an input that fails, is a lemma named here.

* `dependent_tree` stops adding nodes at `MAX_TREE_NODES` but not looping. It returns the closure exactly when that
  has at most `MAX_TREE_NODES` nodes (`DependentTree.ReturnsTreeIffWithinBound`). A larger closure is cut without a
  word, or never returned: the walk ends exactly when no loop device over the set it is full with lies outside that
  set (`DependentTree.EndsIff`). A disk with that many partitions and logical volumes, and a loop device over it, is a
  walk that never ends (`DependentTree.LoopOutsideNeverEnds`, `DependentTree.ManyDependents`).
* The read-only decision looks at the walks, not at the closures. It is safe exactly when neither the source nor a
  disk or chain node that looks clear has a foreign mount behind the cut of its walk (`FreezeLaws.FrozenSafeIff`), and
  so whenever the closures are within the bound. A disk with more logical volumes than the bound, one of them the
  source and another mounted, is frozen under that mount (`FreezeLaws.CutWalkFreezes`,
  `FreezeLaws.VolumeDiskFreezes`); so is a loop device as the source with as many volumes on it, although there is no
  disk or chain node to look at (`FreezeLaws.CutSourceFreezes`, `FreezeLaws.VolumeLoopFreezes`).
* `overlaps` compares ends only; it answers true for an empty range inside another. It means "share a byte" exactly
  when neither range is empty (`ByteRanges.OverlapIsSharedByte`).
* `AlreadyReadOnly` carries no notes. With a mounted partition beside a read-only source, the disk is writable and
  named nowhere (`FreezeExamples.AlreadyReadOnlyWithWritableDisk`). Given this answer, every disk, partition, chain
  and source node is read-only exactly when those left alone because of mounts elsewhere are
  (`FreezeLaws.ReadOnlyEverywhereIff`).
* A node that may or may not be the source's counts as inside the source tree, so a mount of it does not keep a disk
  writable: a volume on a loop device over the whole disk is such a node, and the disk is frozen under it
  (`FreezeExamples.MayBeMountIsFrozen`). What is mounted on a frozen node or a dependent of it is shown to be the
  source's exactly when no such mount is among it; `maybe_source_mounts` finds them
  (`FreezeLaws.FrozenMountsAreShown`, `MaybeMounts.MaybeSourceMounts`).
* `ReadErrorTable::push` keeps the normal form except for a push at offset `u64::MAX` onto a table whose last range,
  of the same kind, starts at `u64::MAX` too (`ReadErrors.ReadErrorTable.Push`, both directions).
* `bad_sectors` counts per block. The count is exact if and only if no two bad blocks share a sector
  (`BadSectorCount.BadSectorsExactIff`, `BadSectorCount.OneSectorCountedTwice`).
* The unmount order is children first if and only if source mounts that are their own parent are listed before the
  source mounts on them; mounts that are listed the other way round are unmounted parent first
  (`Unmount.RunOrderSafeIff`, `Unmount.SelfParentListedLast`).
* `umount` is given mount points, and takes away what is on top there. The run takes only mounts of the source exactly
  when no mount of another device lies over one of them at the same mount point (`Unmount.RunTakesOnlySourceIff`). The
  refusals look at mounts on source mounts only: with another device over `/mnt` and a third at the `/mnt/x` inside
  it, nothing is refused and the third is unmounted in place of the source (`Unmount.ForeignIsUnmounted`).
* The update that finds the channel closed loses its log lines, and a final update without a sender loses its own and
  the held ones, although the sink keeps lines in every other case (`ProgressRuns.StepKeepsEveryLineIff`,
  `ProgressRuns.ClosedChannelLosesLines`, `ProgressRuns.DisconnectedFinishLosesLines`).
* Every pushed line is received, queued, in flight or held if and only if the cap is never hit and no losing step is
  taken with lines in hand (`ProgressRuns.EveryLineIsSomewhereIff`).
* Whenever a final update waits and the queue has room, a line logged then is delivered before it
  (`ProgressRuns.FinishIsOvertaken`).
* SIGINT forces when it finds abort already set, whatever had set it: after a SIGTERM or the examiner's abort the
  first SIGINT forces, although the source says a second one does (`Signals.FirstInterruptForces`). Force is set
  exactly when that happened or a force was requested (`Signals.ForcedIff`, `Signals.ForcedInOrderIff`).
* A split RAW set's last segment may have any size but 0, longer than the others too, although the message says
  shorter (`SplitSegments.LastMayBeLonger`).
* Numbers of a split RAW set are compared without regard to the case of the stem, files are opened with the stem as
  given: a second file with one number is passed over (`SplitSegments.TwinIsPassedOver`). The run holds every sibling
  numbered in its own width exactly when no two of those have the same number
  (`SplitSegments.EverySiblingIffNoTwins`).
* A gap in a split RAW set is refused only among numbers of the set's width. With x.001 to x.999 and without x.1000, a
  file x.1001 is passed over (`SplitSegments.WideGapIsPassedOver`). Of all files with a number of the set, in whatever
  width and spelling, the run holds every one exactly when no two have one number and none has a number behind the
  first that is missing (`SplitSegments.EverySiblingIff`; of the names looked for, `SplitSegments.NoGapIff`).
* A later segment of a split RAW set is refused only in the set's width: x.1000, given beside x.001 to x.999, is
  accepted as the first of a set of four digits (`SplitSegments.LaterSegmentIsAccepted`).
* A gap in an EWF set is refused only among the numbered names. With E01 to EZZ and without FAA, a file FAB is passed
  over (`EwfSegments.LaterGapIsPassedOver`). The set holds every file of libewf's names exactly when none has a name
  behind the first that is missing (`EwfSegments.EveryNameIff`).
* libewf's later names leave the family's letter: segment 9564 of `.e01` has the name of segment 100 of `.s01`
  (`SegmentNames.FamiliesMeet`). Names meet exactly as `SegmentNames.FamiliesMeetIff` says, and never up to segment
  775 (`SegmentNames.FamiliesApart`).
* `Matched` is documented as "every selected digest"; one common digest that agrees is enough
  (`Verdict.OneDigestIsEnough`). A match names exactly the algorithms on which an independent comparison agrees
  (`Verdict.MatchNames`). It confirms exactly the selected digests that both sides of an independent comparison have,
  and so all selected ones exactly when each is among them (`Verdict.MatchConfirms`,
  `Verdict.MatchIsOfEveryDigestIff`).

## Model

| member | source | states |
|---|---|---|
| BlockGraph.TreeIsDependsOn | src/discovery/writeprotect.rs:193-223 | The tree of a node is what depends on it, by any chain of partitions, holders and loop devices |
| BlockGraph.TreeIsLeastClosed | src/discovery/writeprotect.rs:193-223 | The tree is closed under the three relations and inside every closed set that has the root |
| BlockGraph.TreeTransitive | src/discovery/writeprotect.rs:193-223 | What depends on a dependent is a dependent: the trees nest |
| DependentTree.DependentTree | src/discovery/writeprotect.rs:191-223 | If the walk over partitions, holders and loop devices ends, the loops return what it comes to, cut or whole |
| DependentTree.WalkedWithin | src/discovery/writeprotect.rs:191-223 | What is returned depends on the root, holds the root, and has at most MAX_TREE_NODES nodes |
| DependentTree.RunInside | src/discovery/writeprotect.rs:191-223 | So does the set after any number of turns |
| DependentTree.EndsIff | src/discovery/writeprotect.rs:198-223 | The walk ends exactly when the closure is within the bound, or no loop device over the set it is full with is outside |
| DependentTree.WithoutLoopsCut | src/discovery/writeprotect.rs:198-223 | Without loop devices every walk ends, a larger closure cut to MAX_TREE_NODES nodes |
| DependentTree.LoopOutsideNeverEnds | src/discovery/writeprotect.rs:198-223 | Over the bound by partitions and holders alone, with one more loop device over the root, the walk never ends |
| DependentTree.ManyDependents | src/discovery/writeprotect.rs:198-223 | A device with MAX_TREE_NODES partitions and holders, such as logical volumes, is over the bound |
| DependentTree.FullTreeNeverReturns | src/discovery/writeprotect.rs:198-223 | Full, and with a loop device still outside, the walk goes on for ever and adds nothing |
| DependentTree.ReturnsTreeIffWithinBound | src/discovery/writeprotect.rs:191-223 | The walk returns the whole closure if and only if that has at most MAX_TREE_NODES nodes, and then it ends |
| ByteRanges.OverlapIsSharedByte | src/discovery/writeprotect.rs:314-318 | Two ranges share a byte exactly when they overlap and neither is empty |
| ByteRanges.WindowHolds | src/discovery/writeprotect.rs:405-417 | A loop device shows the bytes from its offset on, up to its size limit, or to the end if that is 0 |
| ByteRanges.ExtentHolds | src/discovery/writeprotect.rs:320-327 | A partition holds the bytes of its sectors of 512; its extent is known when start and size are and the start is in u64 |
| ByteRanges.LoopHopExact | src/discovery/writeprotect.rs:389-425 | Byte y of a loop device is carried exactly when y plus its offset is in the range below and in the device's window |
| ByteRanges.PartitionHopExact | src/discovery/writeprotect.rs:322-365 | A byte of the disk is carried exactly when it is in the partition and its place there is in the range; all bytes are when the extent is unknown |
| LowerPlaces.LowerNodesWithRanges | src/discovery/writeprotect.rs:334-365 | Ends with distinct places below the source, none but those, and all of them unless the listing is full |
| LoopDoors.VisitLoop | src/discovery/writeprotect.rs:389-472 | For one loop device, the nodes shown and the possible nodes are exactly those its range shows or may show; each possible one is recorded with this loop device and the node it is set up over |
| LoopDoors.AllSourceIff | src/discovery/writeprotect.rs:431-436 | All of a loop device is the source's data exactly when every byte of it is in the carried range; never when its size is unknown |
| LoopDoors.MayShowIff | src/discovery/writeprotect.rs:437-455 | What only may be the source's: a holder, or a partition of unknown extent, of a loop device with a byte outside the range or of unknown size |
| LoopsOverLower.LoopsOverLowerNodes | src/discovery/writeprotect.rs:389-472 | The walk over (device, range) pairs ends; shown and possible nodes are exactly those of loop devices reached by overlapping hops, unless a listing was cut; each possible node is recorded with a reached loop device and the node below that it is over |
| ByteDoors.EveryDoorIsReached | src/discovery/writeprotect.rs:334-472 | A loop device byte that leads to a byte of the source is in a range the walk carries to that device |
| ByteDoors.DoorsAreFound | src/discovery/writeprotect.rs:389-472 | Such a loop device, and all that depends on the node through which the byte is seen, is shown or possible |
| ByteDoors.CarriedIffDoor | src/discovery/writeprotect.rs:316-472 | A byte is in a carried range exactly when it leads to a byte of the source, for partitions of plain disks |
| ByteDoors.ReachedIsDoors | src/discovery/writeprotect.rs:316-472 | Every byte of every reached range leads to a byte of the source: nothing else is pulled into the tree |
| ByteDoors.AllSourceIsDoors | src/discovery/writeprotect.rs:431-455 | On plain partitions, a loop device that is all the source's data leads to a byte of the source with every byte of it |
| ByteDoors.PartitionShownIff | src/discovery/writeprotect.rs:438-444 | On plain partitions, a partition of a loop device with a known extent that is not empty is shown to be the source's exactly when a byte of it leads to a byte of the source |
| ByteDoors.ShownIsDoors | src/discovery/writeprotect.rs:431-455 | On plain partitions, what is shown holds such a byte, or is on a loop device all of whose bytes are such, as every shown holder is |
| SourceNodes.SourceTree | src/discovery/writeprotect.rs:225-238 | The source tree is what the walk from the source collects, the shown nodes and the possible nodes; unless a listing was cut it is exactly those, with every loop device that can reach a byte of the source and what is on it |
| SourceNodes.SourceTreeHoldsEveryDoor | src/discovery/writeprotect.rs:225-238 | Every loop device that can reach a byte of the source, and what the walks from its partitions and holders collect, is shown or possible |
| SourceNodes.MaybeSourceNodes | src/discovery/writeprotect.rs:271-281 | The source tree is the disjoint union of the shown nodes and the listed possible ones; no node is listed twice; each is listed with a reached loop device and the node below that it is over |
| MaybeMounts.MaybeSourceMounts | src/discovery/writeprotect.rs:283-309 | The points listed are exactly those where something that only may be the source's is mounted and nothing that is shown to be, unless a listing was cut |
| SlaveChain.ListLowerNodes | src/discovery/writeprotect.rs:570-585 | The queue loop returns the specified chain |
| SlaveChain.LowerNodesExact | src/discovery/writeprotect.rs:570-585 | The chain has no repetition and not the source, only nodes the source is stacked on, nearest first, and all of them below the bound |
| WriteProtect.DecisionInputs | src/discovery/writeprotect.rs:500-568 | The inputs are the states and foreign mounts as the walks show them, relative to a tree that holds the walk of the source and only source nodes |
| WriteProtect.Decide | src/discovery/writeprotect.rs:94-157 | The loops over disks, chain and source give the decision the laws below are about; it is only to record exactly when the policy is off or the source is a regular file, each with its reason |
| FreezeNotes.DisksAre | src/discovery/writeprotect.rs:174-188 | The disks looked at, by the kind of the source |
| FreezeLaws.SetIff | src/discovery/writeprotect.rs:94-157 | A node is set exactly when it is the source's own, or in the chain or on a disk whose walk shows nothing mounted elsewhere, and not read-only yet; for every graph |
| FreezeLaws.UnsetDistinct | src/discovery/writeprotect.rs:143-148 | No node is set twice |
| FreezeLaws.FrozenSafeIff | src/discovery/writeprotect.rs:94-157 | Nothing that may be set has a mount elsewhere on a dependent, if and only if neither the source nor a disk or chain node that looks clear has one behind the cut of its walk |
| FreezeLaws.NothingMountedElsewhereIsFrozen | src/discovery/writeprotect.rs:94-157 | For every mount table, and every graph in which the closures of source, disks and chain have at most MAX_TREE_NODES nodes: nothing that depends on a frozen node is mounted outside the source tree |
| FreezeLaws.CutWalkFreezes | src/discovery/writeprotect.rs:94-157 | A disk whose walk is cut in front of the only mounted node is set read-only under it |
| FreezeLaws.VolumeDiskFreezes | src/discovery/writeprotect.rs:94-157 | For any disk with more logical volumes than MAX_TREE_NODES, one of them the source, there is such a mount of another |
| FreezeLaws.CutSourceFreezes | src/discovery/writeprotect.rs:94-157 | A source whose own walk is cut in front of a mounted dependent is set read-only under it, and a loop device has no other node to look at |
| FreezeLaws.VolumeLoopFreezes | src/discovery/writeprotect.rs:94-157 | For any loop device as the source with more logical volumes than the bound there is such a mount |
| FreezeLaws.FrozenMountsAreShown | src/discovery/writeprotect.rs:94-157 | All that is mounted on a frozen node or a dependent of it is shown to be the source's, if and only if no merely possible node is among it |
| FreezeNotes.EveryNodeSetOrNamed | src/discovery/writeprotect.rs:94-157 | When nodes are set, each disk, partition, chain and source node is read-only, set, or named in a note |
| FreezeNotes.NamedIff | src/discovery/writeprotect.rs:104-142 | The notes name exactly the disks and chain nodes with mounts elsewhere, and the partitions of such disks that do not carry the source |
| FreezeNotes.NotesNameMounts | src/discovery/writeprotect.rs:104-142 | Each note lists exactly the mount points outside the source tree that its disk's or node's walk shows |
| FreezeNotes.MountedFromIff | src/discovery/writeprotect.rs:481-497 | A mount is a node's by its device number or by one of the node's paths |
| FreezeNotes.ChainIs | src/discovery/writeprotect.rs:529-585 | The chain is the listed nodes below the source that are not its disks, each once; none for a loop device |
| FreezeNotes.BottomUp | src/discovery/writeprotect.rs:124-148 | Of two chain nodes that are set, the one nearer the disk comes first, unless the other is set with a disk |
| FreezeLaws.AlreadyReadOnlyIff | src/discovery/writeprotect.rs:143-157 | The answer is given exactly when every node that may be set is read-only |
| FreezeLaws.ReadOnlyEverywhereIff | src/discovery/writeprotect.rs:143-157 | Given that answer, every disk, partition, chain and source node is read-only exactly when those left alone because of mounts elsewhere are |
| FreezeLaws.AlreadyReadOnlyEverywhere | src/discovery/writeprotect.rs:143-157 | With nothing mounted elsewhere the answer says so of every one of them |
| FreezeExamples.AlreadyReadOnlyWithWritableDisk | src/discovery/writeprotect.rs:112-157 | A graph, a mount table and a source tree for which it is given with a writable disk |
| FreezeExamples.MayBeMountIsFrozen | src/discovery/writeprotect.rs:94-157 | A graph in which a disk is frozen under a mount of a node that only may be the source's |
| FreezeLaws.SecondDecisionIsAlreadyReadOnly | src/discovery/writeprotect.rs:94-157 | After the nodes were set, deciding again on the same mounts sets nothing |
| Enforcement.WriteProtection.Enforce | src/discovery/writeprotect.rs:711-765 | Decision, recorded state and answer: nothing is set when the policy is off or the source is a regular file; Ok after setting means each node is read-only on re-read, a refusal lists exactly those that are not |
| Enforcement.WriteProtection.Verify | src/discovery/writeprotect.rs:735-765 | The record of what was set and of the flags after, and the answer it gives |
| Pieces.PieceHasher.Update | src/engines/pieces.rs:109-133 | The pieces given out so far are those of the stream so far, however it is sliced |
| Pieces.PieceHasher.Finish | src/engines/pieces.rs:136-140 | With the last pieces, all pieces of the whole stream were given out |
| Pieces.HashInSlices | src/engines/pieces.rs:87-140 | The records depend on the concatenation and on max(piece size, 1) only |
| Pieces.PieceAt | src/engines/pieces.rs:109-140 | Record i is about bytes i*p to min((i+1)*p, n) and their digest |
| Pieces.PiecesChained | src/engines/pieces.rs:109-140 | The records are numbered from 0, contiguous, never empty, and their lengths add up to the stream's |
| PiecesFile.PiecesWriter.WritePiece | src/engines/pieces.rs:165-184 | A piece is written exactly when it continues the file; otherwise nothing changes |
| PiecesFile.WriteAll | src/engines/pieces.rs:155-184 | The text written for a chain of pieces |
| PiecesFile.LineFields | src/engines/pieces.rs:37-70 | A line has index, offset, length and digest, in the order of the header |
| PiecesFile.HeaderIff | src/engines/pieces.rs:211-249 | Only a text whose first line is the header is read: what follows the line end is the rest |
| PiecesFile.LineAcceptedIff | src/engines/pieces.rs:251-302 | A line is accepted exactly when it is the three numerals of a record that continues the file and 64 hexadecimal digits, between tabs |
| PiecesFile.RefusalNamesTheLine | src/engines/pieces.rs:251-302 | A refusal names the first line that is not accepted |
| PiecesFile.PiecesReader.NextPiece | src/engines/pieces.rs:236-304 | Piece, end or refusal is the next of what the whole rest of the text reads as |
| PiecesFile.AcceptedIsWritable | src/engines/pieces.rs:251-304 | Whatever is accepted is numbered from 0, contiguous from 0, of positive lengths, ends within u64 and lower-case digests |
| PiecesFile.ReadBack | src/engines/pieces.rs:58-71 | Every copy with CRLF line ends or upper-case digests, line by line, reads as the same records |
| PiecesFile.ReadBackWritten | src/engines/pieces.rs:155-315 | Reading what was written gives the records back |
| PieceCheck.PieceChecker.Feed | src/engines/pieces.rs:718-734 | Any slicing of the image leaves counts and mismatches those of the bytes seen and the pieces closed |
| PieceCheck.PieceChecker.Finish | src/engines/pieces.rs:736-748 | The report of the whole image, or the error of the pieces file: it fails exactly when the file does not parse; the totals are those of the pieces and the image, and each mismatch listed describes a piece |
| PieceCheck.InMismatches | src/engines/pieces.rs:686-716 | The mismatches are those of exactly the pieces that differ |
| PieceCheck.MismatchDescribes | src/engines/pieces.rs:516-529 | A mismatch gives the piece's place and recorded digest, and the number and digest of the bytes the image has of it, no digest if it has none |
| PieceCheck.MismatchesAscend | src/engines/pieces.rs:686-716 | Mismatches are listed by ascending piece number |
| PiecesEndToEnd.DiffersIff | src/engines/pieces.rs:694-716 | Without a collision a piece is reported exactly when its bytes differ |
| PiecesEndToEnd.AllMatchIff | src/engines/pieces.rs:574-581 | The stream's own image matches; without a collision no other image does |
| PiecesEndToEnd.RecordsWritable | src/engines/pieces.rs:109-184 | What the hasher gives out for a stream of u64 length is accepted by the writer and the reader |
| PiecesEndToEnd.EndToEnd | src/engines/pieces.rs:58-748 | The file written from a stream's records, in any copy, checked against any image: it matches exactly when that is the stream; one mismatch for each piece whose bytes differ, the first of them listed in order, each with the digest of the stream's bytes and of the image's; totals of stream and image |
| ImageReading.HashWriteCheck | src/engines/pieces.rs:109-843 | Hash in any slicing, write, and check the files read in chunks, by the streaming code: the same, unless a read fails; the answer is a failed read exactly when one failed |
| ImageReading.RoundUpIsLeast | src/engines/hasher.rs:356-358 | For every unit: the least multiple of the unit that is not below the length |
| ImageReading.ImageReader.Read | src/engines/hasher.rs:406-460 | For any short reads: each chunk is the next bytes of one file, none beyond its size at open, and the chunks up to the first empty one are the files' first `sizes` bytes, even of files that grew; a read fails exactly when the kernel's does |
| ImageReading.HeadMeans | src/engines/hasher.rs:406-460 | The bytes of a file that belong to the image: as many as it had at open, from its beginning |
| ImageReading.CheckImage | src/engines/pieces.rs:780-840 | Reading all files in chunks and feeding the checker reports on the concatenation of their heads; refused without a valid header or without a file, and failed exactly when a read failed |
| ReadErrors.CurrentIsKindAt | src/models/outcome.rs:276-324 | Between two boundaries the running sums say what kind the bytes there have, unread before zero-filled |
| ReadErrors.Sweep | src/models/outcome.rs:276-320 | The sweep puts any ranges into the normal form and changes the kind of no byte |
| ReadErrors.ReadErrorTable.Push | src/models/outcome.rs:246-264 | Each byte has the worse of its kind before and the pushed one: pushed as unread it is unread, else nothing is taken back; the normal form is kept exactly when the push is not the degenerate one |
| ReadErrors.KindMeans | src/models/outcome.rs:276-324 | A byte is unread exactly when an unread range covers it, and as read exactly when none covers it |
| ReadErrors.NormalFormUnique | src/models/outcome.rs:276-331 | Tables in the normal form that say the same of every byte are the same |
| ReadErrors.PushAll | src/models/outcome.rs:246-320 | Ranges pushed one by one give the normal form that says of each byte what they say |
| ReadErrors.PushInTwoOrders | src/models/outcome.rs:246-320 | Pushing the same ranges in another order, or repeatedly, gives the same table |
| ReadErrors.PushOrderIrrelevant | src/models/outcome.rs:276-331 | Normal forms of the same ranges are the same |
| ReadErrors.LengthIsCount | src/models/outcome.rs:363-390 | The lengths of a kind add up to the number of its bytes |
| MapParser.Parse | src/engines/ddrescue_map.rs:193-274 | The line loop gives the specified result; accepted blocks are ascending, disjoint, not empty and end within u64 |
| MapParser.LineKeepsWellFormed | src/engines/ddrescue_map.rs:206-261 | Every line either keeps that or refuses the map |
| MapParser.NumberForms | src/engines/ddrescue_map.rs:165-182 | Hexadecimal, octal and decimal forms, with leading zeros, are read as the number they write |
| MapParser.MapRoundTrip | src/engines/ddrescue_map.rs:193-274 | A map printed as ddrescue prints it is read back: comments, position line and every block |
| MapAccepted.AcceptedIff | src/engines/ddrescue_map.rs:190-274 | A text is accepted as a map exactly when, blank lines and comments apart, its first line is the position and the others are the blocks, well-formed, and the comments are the map's |
| MapAccepted.RefusalIs | src/engines/ddrescue_map.rs:193-274 | A refusal names the first line with which the lines are no longer the beginning of a map, or line 0 when there is no position |
| MapAccepted.NumberIff | src/engines/ddrescue_map.rs:163-182 | A number is exactly one of three notations, digits only, within u64 |
| MapAccepted.TrimIs | src/engines/ddrescue_map.rs:203 | Trimming takes white space off both ends and nothing else |
| MapAccepted.FieldsAre | src/engines/ddrescue_map.rs:211 | The fields hold all of a line but its white space |
| DdrescueMap.Covers | src/engines/ddrescue_map.rs:413-424 | The cursor loop answers whether the blocks follow one another from 0 to the size |
| DdrescueMap.CoversIffTiles | src/engines/ddrescue_map.rs:413-424 | That is: exactly the bytes below the size are listed |
| DdrescueMap.Assess | src/engines/ddrescue_map.rs:436-529 | Each byte of the source is as read, zero-filled or unread by the status of its block and the image's length, and no other byte is in the table; acquired plus unread is the source, unread is the four sums, every counter is the number of bytes it is named after, all within u64; all is acquired exactly when each byte is listed rescued or bad inside the image |
| DdrescueMap.FateMeans | src/engines/ddrescue_map.rs:93-101 | A byte is zero-filled exactly when a bad block lists it inside the image, as read exactly when a rescued one does |
| DdrescueMap.SumsCountBytes | src/engines/ddrescue_map.rs:436-529 | The sums over clipped blocks are numbers of bytes: of each status, of those not listed, beyond the image and beyond the source |
| DdrescueMap.NothingUnreadIff | src/engines/ddrescue_map.rs:443-497 | All of the source counts as acquired exactly when each of its bytes is listed rescued or bad inside the image |
| DdrescueMap.CompleteRescue | src/engines/ddrescue_map.rs:406-424 | A finished map that covers the source, and an image as long, leave no byte unread |
| BadSectorCount.SectorsHoldBytes | src/engines/ddrescue_map.rs:426-435 | For a sector size of at least 1 (0 counts as 1), the sectors counted for a block are those that hold a byte of it |
| BadSectorCount.BadSectorsExactIff | src/engines/ddrescue_map.rs:426-435 | The count is never too low, and exact if and only if no two bad blocks share a sector |
| BadSectorCount.OneSectorCountedTwice | src/engines/ddrescue_map.rs:426-435 | A map with one bad sector for which the count is two |
| Unmount.MountDepths | src/discovery/safety.rs:170-189 | The depth of every mount by its chain of parents, cut off at 4096; of a mount with two lines, that of the last |
| Unmount.DepthOfUnique | src/discovery/safety.rs:170-189 | Where ids are unique every line has its own depth |
| Unmount.ChildDepth | src/discovery/safety.rs:170-189 | A mount on another is one deeper, except on one that is its own parent |
| Unmount.RunOrderSafeIff | src/discovery/safety.rs:573-600 | Sorted by depth, nothing is unmounted with a mount on it, if and only if self-parented source mounts are listed before those on them |
| Unmount.RunOrderSafe | src/discovery/safety.rs:573-600 | Without self-parented source mounts the run never unmounts a mount that has another on top |
| Unmount.RunIsAllOfSource | src/discovery/safety.rs:573-580 | The run holds every source mount once |
| Unmount.NoForeign | src/discovery/safety.rs:503-512 | No refusal for mounts on top means that every mount on a source mount is a source mount |
| Unmount.RunIsSafe | src/discovery/safety.rs:476-600 | When nothing foreign is on top, the run is of source mounts with only source mounts on them, and children first exactly when self-parented ones are listed before those on them |
| Unmount.UnmountInOrder | src/discovery/safety.rs:581-600 | The calls are those of the run in order, up to the first that fails, and the mount table is what they leave |
| MountTable.OnlySourceIff | src/discovery/safety.rs:581-600 | Calls for all the source's mount points, in whatever order, take only source mounts away, if and only if no mount of another device lies over one of them at its mount point |
| MountTable.OnlySourceLeaves | src/discovery/safety.rs:581-600 | Then all other mounts stay as they were, and none of the source's is left after all the calls |
| Unmount.RunTakesOnlySourceIff | src/discovery/safety.rs:573-600 | The run takes only source mounts away under just that condition, and then all of them |
| Unmount.UnmountSourceTree | src/discovery/safety.rs:404-653 | A source mount at a system mount point, or a mount of another device on a source mount, means a refusal, no call and an unchanged table, as any refusal does; otherwise calls, table and answer are those of the run up to its first failure, in safe order as above; nothing foreign is taken away unless it lies over a source mount; and Ok means each source mount was called for once, no call failed, and the re-read table holds none |
| UnmountRefusals.TableRefusalIff | src/discovery/safety.rs:494-512 | The refusals read off the mount table: one for each source mount at a system mount point and each mount of another device on a source mount |
| UnmountRefusals.NoTableRefusalIff | src/discovery/safety.rs:494-512 | There is none exactly when there is no such mount |
| Unmount.ForeignIsUnmounted | src/discovery/safety.rs:503-600 | A family of tables for which nothing is refused and a foreign mount is taken away in place of the source's |
| Unmount.ForeignIsUnmountedExample | src/discovery/safety.rs:503-600 | One of them, with three devices |
| Unmount.SelfParentListedLast | src/discovery/safety.rs:170-189 | A table for which the order is parent first |
| Progress.ConsumerShows | src/models/telemetry.rs:182-194 | A consumer shows the newest lines of all it received and the fields of the last update |
| Progress.CapOfCap | src/engines/progress.rs:207-212 | Bounding the log on the way and at the end is bounding it at the end |
| Progress.ProgressSink.ForwardState | src/engines/progress.rs:67-84 | Sent exactly when connected, open and with room, kept for the next attempt when full, given up when closed: the whole new state in each case, never waiting |
| Progress.ProgressSink.Send | src/engines/progress.rs:90-100 | Every field of the engine's update, its lines behind the held ones, then forwarded |
| Progress.ProgressSink.WarnOf | src/engines/progress.rs:117-123 | The warning is logged and kept |
| Progress.ProgressSink.LogLine | src/engines/progress.rs:103-113 | One line more, then forwarded |
| Progress.ProgressSink.EnterPhase | src/engines/progress.rs:127-139 | Status, message and gauge of a phase, then forwarded |
| Progress.ProgressSink.ReportGauge | src/engines/progress.rs:143-157 | A new gauge and no line, then forwarded |
| Progress.ProgressSink.Disconnect | src/engines/progress.rs:201-204 | Nothing but the sender is given up |
| Progress.ProgressSink.BeginFinish | src/engines/progress.rs:172-186 | The final update has its status, outcome and message and no gauge, and takes all held lines and the message |
| Progress.ProgressSink.KeepAfterFailure | src/engines/progress.rs:187-198 | A final update that was not sent goes back in front of newer lines |
| ProgressRuns.RunBounded | src/engines/progress.rs:67-199 | In every interleaving held lines, queued updates and updates in flight stay within their bounds |
| ProgressRuns.Conservation | src/engines/progress.rs:67-199 | In every interleaving each pushed line is received, queued, in flight or held, exactly once, or was dropped over the bound or by one of two losing steps |
| ProgressRuns.StepKeepsEveryLineIff | src/engines/progress.rs:67-199 | A step keeps every line exactly when it stays within the bound and is not a losing step |
| ProgressRuns.EveryLineIsSomewhereIff | src/engines/progress.rs:67-199 | In every interleaving no line is missing if and only if the cap is never hit and no losing step is taken with lines in hand |
| ProgressRuns.EveryLineIsSomewhere | src/engines/progress.rs:67-199 | Connected, and with the cap never hit, no interleaving loses a line, however many are pushed |
| ProgressRuns.FewNeverOver | src/engines/progress.rs:67-199 | Up to MAX_LOG_LINES pushed lines never hit the cap |
| ProgressRuns.OrderKept | src/engines/progress.rs:67-199 | Without a concurrent finish the lines, from the consumer back to the sink, are in push order, and are all that were pushed exactly when the cap is never hit and no losing step loses any |
| ProgressRuns.ConsumerCatchesUp | src/engines/progress.rs:67-199 | A consumer that received everything shows the newest of all that was pushed, however much that is |
| ProgressRuns.WarningsKept | src/engines/progress.rs:115-123 | The kept warnings are all warnings in order, whatever happens to channel and log |
| ProgressRuns.ClosedChannelLosesLines | src/engines/progress.rs:80-83 | A run in which a closed channel takes a line with it |
| ProgressRuns.FailedFinishKeepsLines | src/engines/progress.rs:187-198 | The same line in a final update is kept |
| ProgressRuns.DisconnectedFinishLosesLines | src/engines/progress.rs:178-198 | A run in which a sink without a receiver loses a held line and the final message |
| ProgressRuns.FinishIsOvertaken | src/engines/progress.rs:172-199 | After any run with a final update in flight and room in the queue, a line logged now is queued before it |
| ProgressRuns.FinishIsShown | src/engines/progress.rs:160-199 | After any run, a finish that finds an open channel with room makes a consumer that takes in all that is queued show its status, outcome and message, the message as the newest line |
| Signals.AbortController.RequestAbort | src/signals.rs:196-204 | New flags and answer of one call |
| Signals.AbortController.RequestForce | src/signals.rs:206-214 | New flags and answer of one call |
| Signals.AbortController.Handle | src/signals.rs:216-238 | New flags and answer of one signal |
| Signals.UninterruptedIsApply | src/signals.rs:196-238 | The atomic steps of a call, run alone, do what the call does |
| Signals.RunKeeps | src/signals.rs:196-238 | Every interleaving of any number of calls keeps the invariant on flags, places and answers |
| Signals.AnswersAreUnique | src/signals.rs:196-238 | Force implies abort; at most one caller is told Abort, and one is when nothing requests force; exactly one is told Force once force is set |
| Signals.FlagsMonotone | src/signals.rs:196-238 | No flag is taken back |
| Signals.GentleNeverForces | src/signals.rs:216-238 | SIGTERM, SIGQUIT, SIGHUP and graceful requests alone never set force |
| Signals.SecondInterruptForces | src/signals.rs:216-238 | When two SIGINTs have been handled, in any interleaving, force is set |
| Signals.ForcedIff | src/signals.rs:196-238 | In every interleaving, once all calls have returned: force is set exactly when it was requested or a SIGINT found abort set |
| Signals.ForcedInOrderIff | src/signals.rs:196-238 | Of calls one after the other: abort is set by any but a SIGHUP; force by a request for it or by a SIGINT after anything that sets abort |
| Signals.HeadlessIff | src/signals.rs:228-235 | Headless is set exactly by a SIGHUP |
| Signals.LastSignalIs | src/signals.rs:216-238 | The last signal is remembered whatever is requested after it |
| Signals.FirstInterruptForces | src/signals.rs:216-238 | After a SIGTERM the first SIGINT forces |
| SegmentNames.ExtensionIsNumbered | src/engines/ewf.rs:841-884 | libewf's names 1 to 775 of a family have those numbers |
| SegmentNames.EwfNumberIff | src/engines/converter.rs:339-359 | An extension has a number exactly when it is one of the five families and two digits other than 00, or two letters, in any case |
| SegmentNames.NumberIsNamed | src/engines/converter.rs:339-359 | Every numbered extension is, up to case, the name of its number, from 1 to 775 |
| SegmentNames.SameNumberSameName | src/engines/converter.rs:339-359 | One family and number, one extension up to case |
| SegmentNames.NamesDiffer | src/engines/ewf.rs:841-884 | All names of a family, the later ones too, differ even up to case |
| SegmentNames.FamiliesMeetIff | src/engines/ewf.rs:841-884 | Two names of two families are one, up to case, exactly when they have one shape, one lead letter after counting up, and one place in its 676 names |
| SegmentNames.FamiliesApart | src/engines/ewf.rs:841-884 | Up to segment 775 different families have no name in common |
| SegmentNames.FamiliesMeet | src/engines/ewf.rs:863-884 | Two families that share a later name |
| SegmentNames.PaddedOfValue | src/engines/converter.rs:436-447 | A split number is what its value shows in its width |
| SplitSegments.SplitRawSegments | src/engines/converter.rs:403-476 | The complete run if there is one, else a refusal of which what it says is so: consecutive files with every number of that width, equal sizes but for the last, none empty after the first, with their sizes; a name without a split number is one file with its size |
| SplitSegments.CompleteRunUnique | src/engines/converter.rs:403-476 | There is at most one such run |
| SplitSegments.EverySiblingIff | src/engines/converter.rs:403-456 | The run holds every file with a number of the set, in any width and spelling, if and only if no two have the same number and none a number behind the first that is missing |
| SplitSegments.EverySiblingIffNoTwins | src/engines/converter.rs:423-456 | It holds every one numbered in its own width, however the stem is spelled, if and only if no two of those have the same number |
| SplitSegments.NoGapIff | src/engines/converter.rs:403-456 | Of the names looked for, it holds all that exist if and only if none exists behind the first that does not |
| SplitSegments.NumberIsSetNumber | src/engines/converter.rs:423-447 | A number in the set's width is a number of the set |
| SplitSegments.WideGapIsPassedOver | src/engines/converter.rs:403-456 | A file with more digits than the width, behind a missing one, leaves the set accepted without it |
| SplitSegments.LaterSegmentIsAccepted | src/engines/converter.rs:403-456 | The segments from the first with one digit more are accepted as a set of their own |
| SplitSegments.NoSiblingLeftOut | src/engines/converter.rs:423-456 | No file numbered in the set's width with the stem as given is left out |
| SplitSegments.GivenIsFirst | src/engines/converter.rs:435-447 | The file given is the first of the run |
| SplitSegments.LastMayBeLonger | src/engines/converter.rs:457-474 | In every accepted set of two or more, the last segment may be given any positive size |
| SplitSegments.TwinIsPassedOver | src/engines/converter.rs:423-456 | A directory with two files of one number of which one is passed over |
| EwfSegments.EwfSegments | src/engines/converter.rs:478-553 | The complete set if the directory holds one of regular files, else a refusal of which what it says is so; refused as logical evidence exactly when the family is one; a name that is all extension has no later names |
| EwfSegments.CheckNumbers | src/engines/converter.rs:512-528 | No refusal exactly when the sorted numbers are 1, 2, ... without duplicate or gap; a refusal names a number that two have or that none has |
| EwfSegments.SegmentChain | src/engines/converter.rs:555-588 | The later names up to the first that no file has, each of one file; two files of one name are refused |
| EwfSegments.EveryNameIff | src/engines/converter.rs:478-588 | The set holds every file with one of libewf's names if and only if none has a name behind the first that is missing |
| EwfSegments.LaterGapIsPassedOver | src/engines/converter.rs:478-588 | A file of a later name behind a missing one leaves the set accepted without it |
| EwfSegments.CompleteSetUnique | src/engines/converter.rs:478-588 | A directory holds at most one complete set of a family |
| EwfSegments.CaseBlind | src/engines/ewf.rs:841-884 | The case of the first extension does not change the names |
| Verdict.Compare | src/engines/converter.rs:1408-1458 | Mismatched exactly when a common selected digest differs, matched when some agree and none differs, not possible when none is common; either names its two sides and exactly the algorithms that differ, or that agree |
| Verdict.FinalVerdict | src/engines/converter.rs:1408-1513 | From the pairs of digests themselves: mismatch, failure or match exactly when a selected digest differs, something failed, or an independent one agrees with no doubt; exactly the algorithms that differ somewhere, or agree independently, are named, and the pairs they differ or agree in |
| Verdict.MatchNames | src/engines/converter.rs:1438-1513 | A final match names exactly the algorithms on which an independent comparison agrees |
| Verdict.MismatchNames | src/engines/converter.rs:1408-1484 | A final mismatch names exactly the algorithms on which some comparison differs |
| Verdict.MatchedIff | src/engines/converter.rs:1460-1513 | The final verdict is a match exactly when no selected digest differs in any comparison, nothing failed, an independent one agrees, and the source was not in doubt |
| Verdict.MatchConfirms | src/engines/converter.rs:1408-1513 | A match confirms exactly the selected digests that both sides of an independent comparison have |
| Verdict.MatchIsOfEveryDigestIff | src/models/outcome.rs:438-447 | It is of every selected digest exactly when each of them is among those |
| Verdict.MismatchedIff | src/engines/converter.rs:1460-1484 | It is a mismatch exactly when some selected digest differs, whatever failed |
| Verdict.KindIgnoresOrder | src/engines/converter.rs:1460-1513 | The kind of the verdict depends on the comparisons only, not on order or repetition |
| Verdict.MoreNeverExcuses | src/engines/converter.rs:1460-1513 | More comparisons never turn a mismatch or a failure into anything milder |
| Verdict.EveryMismatchNamed | src/engines/converter.rs:1460-1484 | A mismatch names exactly the comparisons and algorithms that differ |
| Verdict.EveryMatchNamed | src/engines/converter.rs:1485-1513 | A match names exactly the independent comparisons that match |
| Verdict.ReasonIs | src/engines/converter.rs:1494-1507 | The reason is that of the first independent comparison that was not possible, if there is one |
| Verdict.OneDigestIsEnough | src/engines/converter.rs:1408-1458 | One agreeing digest gives a match although others were selected |

## Left out

- DependentTree.DependentTree: requires that the walk ends, which `DependentTree.EndsIff` characterises; a walk that
  never ends is stated of the step machine in the same file.
- LoopsOverLower.LoopsOverLowerNodes: requires that the walks it makes end, and so do all methods that call it; cut
  walks are modelled.
- FreezeLaws.NothingMountedElsewhereIsFrozen: not for closures over MAX_TREE_NODES, where it is false
  (`FreezeLaws.CutWalkFreezes`).
- FreezeLaws.FrozenMountsAreShown: likewise.
- ByteDoors.CarriedIffDoor: requires that no partition's disk is itself a partition and that known extents are not
  empty; the other direction needs neither (`ByteDoors.EveryDoorIsReached`).
- PiecesFile.PiecesWriter.WritePiece: counts are unbounded; the u64 limit is in `Writable` and in the lengths the
  lemmas require. Errors of the file written to are not modelled.
- PieceCheck.PieceChecker.Finish: counters are unbounded, as no image is longer than u64.
- SplitSegments.SplitRawSegments: the running number is unbounded; the source adds 1 to a u64.
- Unmount.UnmountSourceTree: the host's answers (registry and swap findings, audit log, failures, what re-reading the
  mount table gives) are parameters or fields; of the mounts at one mount point the last listed is taken to be on top;
  the records written to the audit log are not modelled.
- ByteDoors.ReachedIsDoors: requires what `ByteDoors.CarriedIffDoor` does.
- Progress.ProgressSink.ForwardState: whether the channel has a free permit is a parameter, since a waiting final
  update may hold one; lines queued when the receiver goes away stay counted as queued.
- Signals.RunKeeps: `reset` is not a step; flags are read and written one at a time, in one order for all threads.
- Verdict.Compare: results carry the names and algorithms their texts are made of, not the texts, nor the digest
  values a mismatch quotes.
- sysfs access, symbolic links, `/dev/` prefixes and mountinfo escapes: the graph, the mounts and the device names are
  given.
- Sorted order of mount points in `mounts_of`: a set here.
- `capture_in`, `ReadErrorTable::merge`, `push_sectors`, created-by and command-line comments of a map, summaries and
  message texts: would add easy members only.
- UTF-8 decoding of maps and pieces files, and lower case beyond ASCII.
- The switch of `UncachedReader` from direct to buffered reads, page cache eviction and aligned buffers.
- Percentages, speeds and times of progress updates.
- SHA-256 itself.
- Planning, reports and provenance of acquisitions and conversions, device listing, SMART, the user interfaces.
