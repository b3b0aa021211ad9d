# A model of the MDFS / MaRTA map-reduce system

The system is made of four programs. **FileSystem** (MDFS) cuts texts into newline-aligned blocks, keeps three copies of
every block in the slots of the nodes' bin files, and records where they are in two document collections. **Nodo** is a
node: it keeps the slots and runs map and reduce programs. **MaRTA** plans the maps and reduces of jobs and reacts to
failures. **Job** passes orders from MaRTA to the nodes and their results back. This project models the block store, the
scheduler, the reducer programs and the messages that tie the processes together, and proves what they keep.

`dafny verify dfyconfig.toml` checks everything.

| file | models |
|---|---|
| Bytes | bytes, C strings, concatenation, powers and division, lists without duplicates |
| Splitter | cutting a text into blocks |
| SlotStore | the bin file of a node: slots, terminators, reading back |
| NodeBitmap, NodeTable | the bitmap of one node; the node collection and marking many slots |
| Placement, Planner | the "most free space first" rule as arithmetic; the planning loop on node objects |
| Allocation | which slots the stored files use: the invariant of the two collections |
| Disks, Mdfs | sending blocks over an unreliable network; the file system process as a class, over any run of requests |
| DirTree, PathResolver | the directory tree; the path resolver |
| Framing, Wire | packets over a byte stream; 16- and 32-bit fields |
| OrderCodec, BlockListing | the reduce order through three processes; the block listing from FileSystem to MaRTA |
| MartaTrace, MartaState, MartaJob | what MaRTA and a Job say and when it is in order; the fields of a job; the job's thread |
| MartaLoad | the load kept for the nodes by any number of jobs |
| MartaAccount | that conversation and load accounting fit together |
| Lines, WordCount, Weather | sorted lines; the two reducer programs, with and without combiner |
| MartaResult | the protocol and the reducers together |

Outside decisions are parameters that no proof restricts: the order and outcome of every reply (a finite script, whose end
is a lost connection), the node table as other jobs and the file system leave it at every look, the outcome of every block
transfer, whether a document insertion succeeds, which nodes answer, how the network cuts a stream.

## What the proofs found

- The splitter never looks at a newline at the position where a block starts, and makes no progress when none follows
  within a block. Without blank lines it ends exactly when every line fits in a block; with blank lines it can hang on a
  text that could have been cut (`Splitter.HangsOnCuttableText`).
- A block that fills its slot does not read back, and its terminator lands in the next slot; both conditions are exact
  (`SlotStore.ReadsBackIffShort`, `SlotStore.IsolatedIffShortOrNextEmpty`). A text with such a block therefore never reads
  back (`Mdfs.FileSystem.StoreRunRead`), and storing one changes what another file reads exactly when a non-empty copy of
  that file lies in the slot behind a full one (`Mdfs.SpoiledExactly`, `Mdfs.FileSystem.CopyFileFromFS`); every other file
  stays intact. Which texts have such a block is exact too (`Mdfs.CutIsShort`).
- Moving a directory keeps the tree exactly when the destination is outside the moved subtree, which is not checked
  (`DirTree.MoveKeepsTreeIff`).
- MaRTA reads a listing as "not available" also when the number of blocks, or of active copies of a block, is a multiple of
  65536 (`BlockListing.UnavailableIff`).
- A replanned map adds no load to its new node, and a job that dies with reduce orders outstanding leaves them counted
  (`MartaLoad.ReplanningAddsNoLoad`, `MartaLoad.RunKeeps`). A job that ends releases an entry for every map it had, also for
  those whose entry went with their reply, and so takes away entries of other jobs' maps of the same block on the same node;
  the exact condition is `MartaLoad.FreedIsExactIff`.
- The two modes of a weather job give different files exactly when there is data and a node has no line in its map outputs,
  whose three semicolons then run into the next partial result and stay in the final one, or when there are only headers
  (`Weather.BothModes`).
- Planning the final reduce of combiner mode dereferences a null pointer (ReducePlanning.c:180) if and only if none of the
  nodes that hold map outputs is active at that moment (`MartaJob.Job.CombinerFinalReducePlanning`), where the other mode
  ends the job in order. Every job of which no block has a live holder when it is planned gets there
  (`MartaJob.Job.AcceptJob`); a concrete one has a listed holder that another job takes out before the planning
  (`MartaJob.OnAnUnheldBlock`).
- A block without a live holder at its moment is skipped, and the job can still report RESULT_OK, on the other blocks
  only. It has then covered all blocks exactly when each had a live holder at its moment (`MartaJob.Job.AcceptJob`); one that
  has not is `MartaJob.OnASkippedBlock`.
- Nothing else keeps a job from its end but a lost connection, a message that cannot be sent, an unlisted file, a planned
  block that loses its last live holder, or a copy without room, and (2m + 1)(1 + f) replies are enough for m blocks and f
  failures (`MartaJob.Job.AcceptJob`).

## Model

| member | source | states |
|---|---|---|
| Splitter.GetBlocksFromStr | FileSystem/src/filesystem/filesystem.c:739-774 | It ends exactly when a block can be cut at every position it reaches; then the blocks concatenate to the text, all but the last end in a newline and have 2 to N bytes, the last is shorter than N, and no legal cut has fewer blocks. |
| Splitter.StaysAhead | FileSystem/src/filesystem/filesystem.c:754-771 | Greedy stays ahead: after as many blocks no legal cut of the text has got further. |
| Splitter.NextOrder | FileSystem/src/filesystem/filesystem.c:754-771 | No start of a block lies between a start and the newline it leads to, so the starts are one chain. |
| Splitter.EndsOnlyIfLinesFit | FileSystem/src/filesystem/filesystem.c:754-771 | If the splitter ends the text can be cut, and a text that can be cut has only lines that fit in a block. |
| Splitter.EndsIffLinesFit | FileSystem/src/filesystem/filesystem.c:762-769 | On texts without blank lines it ends if and only if every line fits in a block, which is when the text can be cut at all. |
| Splitter.HangsOnCuttableText | FileSystem/src/filesystem/filesystem.c:762-769 | A text with blank lines that has a legal cut and makes the splitter hang. |
| SlotStore.BinFile.GetBlock | Nodo/src/node.c:174-184 | What is read is the C string of the N bytes of the slot; an unterminated slot runs over. |
| SlotStore.BinFile.SetBlockFromPacket | Nodo/src/node.c:198-211 | The bytes that arrive replace the start of the slot. The terminator goes behind the announced length, also when the transfer breaks off; when it breaks inside its size header, to the place that the received bytes of the size say, which is never behind the announced length. The result tells whether that place is inside the file, which it is not exactly for a full-slot block in the last slot. |
| SlotStore.OtherReads | Nodo/src/node.c:204-206 | Whatever arrives of a block of at most N bytes, every other slot reads as before, except that the next one reads empty when the terminator goes behind a full slot. |
| SlotStore.ShortBlockIsIsolated | Nodo/src/node.c:198-211 | A block shorter than the slot, however much of it or of its size arrives, changes no other slot; complete and NUL-free it reads back exactly. |
| SlotStore.ReadsBackIffShort | Nodo/src/connections/connections_fs.c:140-158 | A NUL-free block of at most N bytes reads back if and only if it is shorter than N; otherwise reading runs over. |
| SlotStore.IsolatedIffShortOrNextEmpty | Nodo/src/node.c:204-206 | Storing at most N bytes leaves every other slot alone if and only if the block is shorter than N or the next slot was already empty. |
| NodeBitmap.Node.SetAllBlocksFree | FileSystem/src/structs/node.c:45-48 | The bitmap is that of an unused node with the same number of slots. |
| NodeBitmap.Node.SetBlockUsed | FileSystem/src/structs/node.c:50-54 | Exactly the given slot becomes used, and nothing changes for an index out of range. |
| NodeBitmap.Node.SetBlockFree | FileSystem/src/structs/node.c:56-60 | Exactly the given slot becomes free, and nothing changes for an index out of range. |
| NodeBitmap.Node.GetBlocksFreeCount | FileSystem/src/structs/node.c:69-78 | The number of free slots; the padding bits of the last byte do not count. |
| NodeBitmap.Node.GetFirstFreeBlock | FileSystem/src/structs/node.c:80-88 | The least free slot, and -1 exactly when none is free. |
| NodeBitmap.PaddedBits | FileSystem/src/structs/node.c:117-127 | The bitmap has the least multiple of eight bits that holds all slots. |
| NodeTable.UsedAfterMarkAll | FileSystem/src/structs/node.c:50-60 | Marking a list of slots changes exactly these, in every node. |
| NodeTable.FreeingUndoesTaking | FileSystem/src/filesystem/filesystem.c:111-128 | Freeing the slots of a file that were free before it was stored restores the very same node collection. |
| NodeTable.MarkAllIsLocal | FileSystem/src/filesystem/filesystem.c:918-924 | Writing back only the nodes that took part gives the same collection as writing back all. |
| Placement.MostFreeKeepsRoom | FileSystem/src/filesystem/filesystem.c:834-863 | Placing one block on the three nodes with most free slots leaves enough room for the rest if and only if there was enough before. |
| Placement.PlaceableNeedsRoom | FileSystem/src/filesystem/filesystem.c:834-863 | Any placement of m blocks on three distinct nodes each needs the sum of min(free, m) to be at least 3m. |
| Placement.RoomNeedsNodes | FileSystem/src/filesystem/filesystem.c:846-858 | Nodes without a free slot contribute nothing to that sum: it is at most m for each of the others. |
| Placement.MostFreeKeepsBalance | FileSystem/src/filesystem/filesystem.c:834-863 | A difference of at most d between the free counts of any two nodes, d at least 1, is kept by every placed block. |
| Planner.SortByBlocksFree | FileSystem/src/filesystem/filesystem.c:817-819 | The same nodes, those with more free slots first. |
| Planner.PlaceBlock | FileSystem/src/filesystem/filesystem.c:839-862 | The three copies of a block are the first free slots of the first three nodes of the sorted list; failure means fewer nodes or a full one among them. |
| Planner.PlanBlocks | FileSystem/src/filesystem/filesystem.c:821-866 | Planning succeeds exactly when the sum of min(free, m) over the active nodes is at least 3m; the plan then has three copies of every block on distinct nodes, all in slots that were free and each used once, and the balance of the nodes is kept. |
| Allocation.AddFile | FileSystem/src/filesystem/filesystem.c:918-932 | Adding a file on free, pairwise different slots keeps the allocation invariant: a slot is used if and only if exactly one block refers to it, copies are in range, and those of a block are on distinct nodes. |
| Allocation.RemoveFile | FileSystem/src/filesystem/filesystem.c:111-128 | Removing a file and freeing its slots keeps the invariant. |
| Allocation.AddCopy | FileSystem/src/filesystem/filesystem.c:485-492 | Adding a copy of a block on a node without one, in a free slot, keeps the invariant. |
| Allocation.RemoveCopy | FileSystem/src/filesystem/filesystem.c:530-543 | Pulling a copy and freeing its slot keeps the invariant. |
| Allocation.PullNodeCopies | FileSystem/src/filesystem/filesystem.c:196-213 | Pulling, one after another, the copies of a block on a node leaves exactly the copies on other nodes, in their order. |
| Allocation.FormatNode | FileSystem/src/filesystem/filesystem.c:187-229 | Dropping the copies on a node together with its bitmap keeps the invariant. |
| Allocation.UsedSlotsEqualCopies | FileSystem/src/filesystem/filesystem.c:821-933 | In every state that satisfies the invariant the used slots of all nodes are as many as the copies of all files. |
| Disks.SendPlanEffect | FileSystem/src/connections/connections_node.c:201-240 | Sending a plan, with any outcome of every transfer: where a transfer arrives the slot reads its block, or runs over if the block fills the slot; no slot outside the plan reads differently; except that a slot just behind one whose block fills it may read empty, and does if every transfer arrives. |
| Mdfs.FileSystem.GetAllActivatedNodes | FileSystem/src/filesystem/filesystem.c:644-658 | Every active node once, with its bitmap as stored. |
| Mdfs.FileSystem.DistributeBlocksToNodes | FileSystem/src/filesystem/filesystem.c:821-933 | It succeeds only if there is room and, when every transfer arrives, exactly then; on success the planned slots are recorded as used, on failure no bitmap changes. No slot in use reads differently, on success or failure, but those just behind a planned slot whose block fills it: they read as before or empty, and empty on success, when every planned slot reads what was sent to it. |
| Mdfs.FileSystem.CopyFileFromFS | FileSystem/src/filesystem/filesystem.c:146-173 | All or nothing: every result other than success, a failed insertion after the bitmaps were saved included, leaves bitmaps, files and the record of stored texts as they were; each failure code has its exact condition; success stores a legal cut of the text on three distinct active nodes per block, each block starting where the splitter starts one. The new file is intact if and only if it has no full-slot block. Of the files that were intact exactly those with a non-empty copy behind a full slot of the plan are counted spoiled, which are, once the plan was sent, exactly those that read differently; none when the text has no full-slot block. |
| Mdfs.SpoiledExactly | Nodo/src/node.c:204-206 | When a plan has been sent, the copies of a stored file read differently if and only if one of them lies behind a full slot and was not empty. |
| Mdfs.FileSystem.DeleteFile | FileSystem/src/filesystem/filesystem.c:111-128 | The file goes and exactly its slots become free. |
| Mdfs.FileSystem.GetBlock | FileSystem/src/connections/connections_node.c:242-290 | The first listed copy on an active node that answers is what is read; exactly the active holders asked before it, which did not answer, are dropped; nothing is found exactly when no active holder answers. |
| Mdfs.FileSystem.GetAllFileContent | FileSystem/src/filesystem/filesystem.c:776-815 | Unavailable exactly when some block has no copy on an active node that answers; otherwise the stored text, if the file is intact; of a file with a full-slot block never the whole text, but at least one byte less for each such block. Only holders that do not answer are dropped from the active nodes. |
| Mdfs.FileSystem.DeleteFileBlockCopy | FileSystem/src/filesystem/filesystem.c:521-544 | The two error codes have their exact conditions and change nothing; success removes that copy and frees its slot. |
| Mdfs.FileSystem.FindCandidate | FileSystem/src/filesystem/filesystem.c:452-474 | The first free slot of an active node without a copy of the block, none of which has more free slots; none exactly when they are all full or hold a copy. |
| Mdfs.FreestOfOthers | FileSystem/src/filesystem/filesystem.c:452-474 | The best candidate is the first free slot of its node, and no other live node without a copy of the block has more free slots. |
| Mdfs.FileSystem.MakeNewFileBlockCopy | FileSystem/src/filesystem/filesystem.c:432-511 | Success adds the best candidate's copy and marks its slot; every other result changes no metadata, and its code has its condition. |
| Mdfs.FileSystem.AddNode | FileSystem/src/filesystem/filesystem.c:187-229 | A connecting node leaves the active ones for standby; an unknown one is added unused, a known one that says it is new loses its copies and its bitmap, any other stays as it is. |
| Mdfs.FileSystem.Format | FileSystem/src/filesystem/filesystem.c:45-56 | Files and bitmaps are emptied only when both collections could be emptied; the directories go even if the files could not. |
| Mdfs.FileSystem.ActivateNode | FileSystem/src/connections/connections_node.c:106-119 | A node becomes active exactly when it waits in standby, which it leaves. |
| Mdfs.FileSystem.DeactivateNode | FileSystem/src/connections/connections_node.c:121-134 | An active node goes to standby, any other stays where it is, and the result tells which it was. |
| Mdfs.FileSystem.DeleteDir | FileSystem/src/filesystem/filesystem.c:93-109 | On a tree it ends and removes exactly the directories and files in the subtree, frees exactly their slots, and leaves everything else as it was. |
| Mdfs.FileSystem.AddDir | FileSystem/src/filesystem/filesystem.c:175-181 | A directory is added exactly when its name is free in its parent and the insertion succeeds, and the tree stays a tree. |
| Mdfs.FileSystem.MoveDir | FileSystem/src/filesystem/filesystem.c:134-136 | The directory gets the new parent unchecked; a tree stays a tree if and only if the destination is outside the moved subtree. |
| Mdfs.CutIsShort | FileSystem/src/filesystem/filesystem.c:739-774 | The blocks the splitter makes of a text leave room for their terminators if and only if no newline lies exactly N - 1 bytes behind a position at which the splitter starts a block, unless a NUL cuts that block short. |
| Mdfs.FileSystem.Serve | FileSystem/src/filesystem/filesystem.c:45-229 | One request does what it is for. A node that connects waits in standby, is added or loses its copies; only a node in standby is activated; a copy of a block is made when it can be read, placed and sent, and deleted when the indices are good; a file is stored, or there is a reason, at least a want of room; a directory is made exactly when its name is free and the insertion succeeds. It removes exactly the files it is meant to: the one it names, those below a directory that goes, all of them in a format that succeeds; every other stored text, and the place of its file, stays as it was; an intact file stays intact unless the request stores a text with a full-slot block while a non-empty copy of the file lies behind a free slot. |
| Mdfs.FileSystem.Run | FileSystem/src/filesystem/filesystem.c:45-229 | Over every sequence of requests the invariants hold, every request does what it is for, and a stored text is the same after it unless one of the requests removed the file: its deletion, that of a directory above it at that moment, or a format that succeeds; a removed file is gone unless its identifier is used again. An intact file that survives stays intact unless one of the requests stores a text with a full-slot block when a non-empty copy of the file lies behind a free slot. |
| Mdfs.FileSystem.StoreRunRead | FileSystem/src/filesystem/filesystem.c:776-815 | The store refines a map from file to text: after storing a text without full-slot blocks, and any later requests, each of which neither removed the file nor stored a text with a full-slot block when a non-empty copy of this file lay behind a free slot, reading gives exactly that text if every block has a copy on a node that answers and is refused otherwise. A text with a full-slot block never reads back, whatever the requests. |
| Mdfs.AnyTwoNodesMayFail | FileSystem/src/filesystem/filesystem.c:839-862 | Right after storing, the file is available with any two nodes down. |
| DirTree.MoveKeepsTreeIff | FileSystem/src/filesystem/filesystem.c:134-136 | Re-parenting a directory keeps the tree if and only if the destination does not lie below it. |
| DirTree.BeneathIsClosed | FileSystem/src/filesystem/filesystem.c:93-109 | What lies below removed directories is removed with them, whole. |
| PathResolver.ResolveDirPath | FileSystem/src/filesystem/filesystem.c:303-384 | It agrees with a step-by-step walk of the tree, and the path kept by cutting and appending is the canonical path of the directory found. Two dots lead to the parent, from the root to the root, and a name to the child of that name. |
| PathResolver.FullPathResolves | FileSystem/src/filesystem/filesystem.c:303-384 | The canonical path of a directory, resolved from the root, leads back to the directory. |
| PathResolver.UpLeadsToParent | FileSystem/src/filesystem/filesystem.c:335-355 | Two dots lead from every directory to its parent, and from the root to the root. |
| PathResolver.FullPathUp | FileSystem/src/filesystem/filesystem.c:335-355 | The canonical path of a directory with two dots behind it leads to its parent, from anywhere. |
| PathResolver.DotsAndSlashesVanish | FileSystem/src/filesystem/filesystem.c:336-358 | Anywhere in a path a dot between slashes, a doubled slash, and a slash or a dot at the end change nothing. |
| PathResolver.DownAndUp | FileSystem/src/filesystem/filesystem.c:336-372 | A name and then two dots lead back. |
| PathResolver.SplitIsUndone | FileSystem/src/filesystem/filesystem.c:313-319 | The segments of a path with slashes between them are the path, and no segment has a slash. |
| PathResolver.ResolveFilePath | FileSystem/src/filesystem/filesystem.c:259-297 | A file is found exactly when the walk along the path up to its last slash ends in a directory that has a file named like the rest. |
| Framing.Hton | utils/socket.c:146-159 | The in-place swap reverses the bytes on a little-endian host, for every size. |
| Framing.ReversedTwice | utils/socket.c:146-176 | Swapping twice restores the value. |
| Framing.Channel.Send | utils/socket.c:178-211 | Success means the whole stream was put on the connection in order, however it was cut into pieces; it succeeds when there are calls enough and each moves something. |
| Framing.Channel.Recv | utils/socket.c:214-246 | Success means exactly the requested bytes were taken off the connection in order; it succeeds when they are there, with calls enough that each move something. |
| Framing.Channel.SendPacket | utils/socket.c:253-266 | Success puts the size and then the packet on the connection, appends the packet to those sent and keeps the channel healthy: what was received is what was sent, the rest is on its way. It succeeds when there are calls enough and each moves something. |
| Framing.Channel.RecvPacket | utils/socket.c:268-278 | Success delivers the next packet that was sent, whatever the byte order of the host; it succeeds when one is on its way, with calls enough that each move something. |
| Framing.HeaderRoundTrip | utils/socket.c:162-176 | A size survives the swap on both sides. |
| Framing.HeaderAt | utils/socket.c:162-176 | A size is sent in eight bytes, the most significant first. |
| Framing.TruncatedSize | utils/socket.c:168-172 | A size read off a connection that breaks inside it is never more than the size sent, zero when nothing of it came, and the size itself when all of it did. |
| OrderCodec.TotalTempsSize | MaRTA/src/Connections/JobConnection.c:190-200 | The size computed beforehand is the size of what is then printed, also for strings beyond 16 bits. |
| OrderCodec.SerializeTemp | MaRTA/src/Connections/JobConnection.c:202-225 | Exactly the bytes of one temporary are put at the offset, which moves behind them. |
| OrderCodec.SerializeReduceToOrder | MaRTA/src/Connections/JobConnection.c:227-271 | The order's bytes as the other processes read them. |
| OrderCodec.JobReadsHead | Job/src/marta/marta.c:366-405 | Job reads id, address and result name of every good order and keeps the rest unread. |
| OrderCodec.SerializeReduce | Job/src/structs/node.c:61-99 | What Job sends to a node: program, result name, the unread rest, and four NUL bytes, because the buffer is sized for one number too many. |
| OrderCodec.DeserializeReduce | Nodo/src/connections/connections_job.c:90-169 | The parse loop agrees with the wire format on every input, and the files the reducer will read, by node and name, are those of the parsed list, in order: the node's own single file where it is, anything else gathered as listed. Overrun marks the inputs on which the program, which does not check, would read behind the received bytes. |
| OrderCodec.NodoReadsAll | Nodo/src/connections/connections_job.c:90-169 | Nodo reads back program, result name and the whole list, and stops before the four extra bytes. |
| OrderCodec.OrderSurvives | Nodo/src/connections/connections_job.c:90-169 | What Nodo parses out of the packet Job prints of what Job cut out of MaRTA's print is the original list and result name, within the 16-bit limits and names of at most 59 bytes. |
| OrderCodec.RelayReduce | Nodo/src/connections/connections_job.c:90-169 | The order through the three processes: the node that runs it reads exactly the files of the order, by node and name, in order, and a part on another node is fetched from the address MaRTA gave for it. |
| BlockListing.PrintCopies | FileSystem/src/connections/connections_marta.c:141-172 | Count, in 16 bits, and bytes are those of the copies on active nodes, in order. |
| BlockListing.SendFileBlocks | FileSystem/src/connections/connections_marta.c:83-206 | The full listing when the 16-bit count of active copies of every block is not zero, and otherwise the zero reply. |
| BlockListing.RequestFileBlocks | MaRTA/src/Connections/FSConnection.c:49-146 | The nested parse agrees with the wire format and updates the node list by every entry read. |
| BlockListing.ListingSurvives | MaRTA/src/Connections/FSConnection.c:98-144 | What MaRTA reads is, block by block and in order, the file's copies on active nodes. |
| BlockListing.UnavailableIff | FileSystem/src/connections/connections_marta.c:172-197 | For every file: MaRTA takes the reply as unavailable if and only if the number of active copies of some block, or the number of blocks, is a multiple of 65536, zero included. |
| BlockListing.NodesAfter | MaRTA/src/Connections/FSConnection.c:36-47 | After reading entries, a node named in one is known, active and at its announced address; others are as before. |
| BlockListing.AskForBlocks | MaRTA/src/Connections/FSConnection.c:49-146 | The whole exchange: the listing of active copies exactly when every block has one, and the node list changed exactly for the listed nodes. |
| MartaTrace.SuccessMeansCopied | MaRTA/src/Connections/JobConnection.c:29-34 | In every legal conversation RESULT_OK comes only after the last final reduce succeeded and then its copy, with no order since the copy. |
| MartaTrace.RepliesFollowOrders | MaRTA/src/Planning/MapPlanning.c:20-28 | At every moment each map has as many replies as orders, or one fewer while it runs. |
| MartaTrace.MapsSettledBeforeReduce | MaRTA/src/Planning/ReducePlanning.c:12-31 | When a reduce order is sent, every map order has had its reply. |
| MartaTrace.FallenMapsAreOrderedAgain | MaRTA/src/Planning/ReducePlanning.c:45-57 | In every legal conversation, between the report of a fallen node and the next reduce order every map whose output was on that node is ordered again. |
| MartaTrace.NothingAfterDie | MaRTA/src/Planning/MapPlanning.c:30-35 | Nothing is sent once the job has been told to end. |
| MartaState.DoneAndOutstanding | MaRTA/src/Connections/JobConnection.c:157-187 | Maps flagged done and outstanding map orders together are all maps. |
| MartaState.AllDone | MaRTA/src/Planning/ReducePlanning.c:59-131 | Without outstanding map orders every map is flagged done and has succeeded. |
| MartaState.MapSentKeeps | MaRTA/src/Planning/MapPlanning.c:20-28 | Sending a map order is in order and keeps the fields in agreement with the conversation. |
| MartaState.MapRepliedKeeps | MaRTA/src/Connections/JobConnection.c:157-187 | So does a reply to any outstanding map order; after a failure only that map is unaccounted for. |
| MartaState.ReduceSentKeeps | MaRTA/src/Planning/ReducePlanning.c:12-31 | So does sending a partial or the final reduce. |
| MartaState.ReduceRepliedKeeps | MaRTA/src/Connections/JobConnection.c:273-324 | So does a reply to any outstanding reduce order. |
| MartaState.OneMapPerBlock | MaRTA/src/Planning/MapPlanning.c:41-68 | The maps are never more than the blocks, and one for each if and only if every block had a live holder when it was looked at. |
| MartaState.PlannedAreLive | MaRTA/src/Planning/MapPlanning.c:46-68 | A block is planned if and only if it had a live holder at its moment. |
| MartaState.BlocksOfListed | MaRTA/src/Planning/MapPlanning.c:41-68 | The blocks of a job are those of its files, one file after the other. |
| MartaState.GroupedMore | MaRTA/src/Planning/ReducePlanning.c:134-147 | Adding a map output to the partial reduce of its node keeps: one partial per node, local inputs only, and every output so far in exactly one of them. |
| MartaState.GroupedNew | MaRTA/src/Planning/ReducePlanning.c:134-147 | So does a new partial reduce for a node that has none. |
| MartaState.FinalInOrder | MaRTA/src/Planning/ReducePlanning.c:172-191 | After a round without failures, with no output lost on a fallen node, the final reduce over the partial results is in order. |
| MartaState.NodesOfRound | MaRTA/src/Planning/ReducePlanning.c:172-182 | No node with a partial result is active if and only if no node with a map output is, and there are no partials if and only if there are no maps. |
| MartaJob.Job.LeastLoaded | MaRTA/src/Planning/MapPlanning.c:5-18 | The first of the least loaded active nodes of a list, and none exactly when none is active. |
| MartaJob.Job.NotificarMap | MaRTA/src/Planning/MapPlanning.c:20-28 | A map order joins the outstanding ones, for the node, block and name given, and the map is not done; the thread ends only when the order cannot be sent. |
| MartaJob.Job.MapPlanning | MaRTA/src/Planning/MapPlanning.c:46-69 | A block with a live holder gets a map on the first of its least loaded ones as the node table stands; one without is skipped, and nothing is ordered. No live holder has less load than the one chosen. |
| MartaJob.Job.OrderAgain | MaRTA/src/Planning/MapPlanning.c:85-111 | The order goes to the first of the least loaded live holders as the node table stands; there is none exactly when no holder is live. None of them has less load. |
| MartaJob.Job.RePlanMap | MaRTA/src/Planning/MapPlanning.c:85-113 | It gives up if and only if no holder is live, changing nothing; otherwise the map is ordered at the best one, and after the nested reply one more map is done and as many orders are outstanding as before. Every end of the thread has its cause: replies run out, an order cannot be sent, a block has no live holder. |
| MartaJob.Job.DesserializeMapResult | MaRTA/src/Connections/JobConnection.c:157-187 | A map reply, failed or not, ends with exactly one more map done and one order fewer; maps that were done stay as they are; after a failure the node of that map has been taken out; the thread ends only in the replanning of a failure, and for one of its causes. |
| MartaJob.Job.DesserializaReduceResult | MaRTA/src/Connections/JobConnection.c:273-324 | Exactly the reduce the reply is about is settled. No node falls when the reply reports success; otherwise the one the reply names, whichever node ran the reduce, or the node of the reduce when the reply names none. That node is taken out and its map outputs count as lost. |
| MartaJob.Job.RecvResult | MaRTA/src/Connections/JobConnection.c:90-112 | For every order of replies and every pattern of failures: in the map phase each call nets one completion across its nested replans, using at most one reply and one more per failure; in a reduce phase it takes one reply, settles one order and reports the node the reply names, or that of the reduce when it names none, exactly if it failed. The thread ends only when the replies run out or, in a replanning, an order cannot be sent or a block has no live holder. It is never called with nothing outstanding. |
| MartaJob.Job.FileMap | MaRTA/src/Planning/MapPlanning.c:46-70 | The maps planned are those of the blocks with a live holder at their moment, in order, each on its best holder at that moment; the thread ends only when an order cannot be sent. |
| MartaJob.Job.PlanMaps | MaRTA/src/Planning/MapPlanning.c:37-83 | It returns only with every map done, the counter equal to the number of maps, and nothing outstanding, after at most as many replies as maps and one more per failure; an unlisted file ends the job, and otherwise the thread ends only for want of replies, of a way to send, or of a live holder. |
| MartaJob.Job.RePlanMapsFromNode | MaRTA/src/Planning/ReducePlanning.c:45-57 | Every map of the fallen node has been ordered again since the call, no other is touched, and the counter is back at the number of maps; false only when some block has no live holder left. |
| MartaJob.Job.CountTemporals | MaRTA/src/Planning/ReducePlanning.c:65-81 | One entry per node with map outputs, with their number. |
| MartaJob.Job.MoreTempsNode | MaRTA/src/Planning/ReducePlanning.c:83-100 | An active node such that no active node has more map outputs, counted as a set; none exactly when no map's node is active. |
| MartaJob.Job.NotificarReduce | MaRTA/src/Planning/ReducePlanning.c:12-31 | A reduce order that is in order is sent and joins the outstanding ones; the thread ends only when it cannot be sent. |
| MartaJob.Job.CopyFinalTemporal | MaRTA/src/Connections/FSConnection.c:148-204 | The copy's outcome is recorded; the job ends only, and in order, when there is no room for it. |
| MartaJob.Job.FinalReply | MaRTA/src/Planning/ReducePlanning.c:113-118 | It names no node exactly when the final reduce and the copy of its result have succeeded; after a failed reduce it names the node the reply names, or the one the final order went to, which it also names after a failed copy; exactly the outputs on that node are lost. It ends the thread only for want of a reply or of room for the copy. |
| MartaJob.Job.Restart | MaRTA/src/Planning/ReducePlanning.c:120-128 | After a failed final reduce or copy every map of the fallen node has been ordered again, all maps are done, no output is lost and the reduces are forgotten. |
| MartaJob.Job.AfterFinal | MaRTA/src/Planning/ReducePlanning.c:113-128 | When the reduces have to start again, every map on the node the failed reply named, or else on the node of the final reduce, has been ordered again since the call. |
| MartaJob.Job.NoCombinerFinalReducePlanning | MaRTA/src/Planning/ReducePlanning.c:62-111 | The job ends as unavailable if and only if no node with a map output is active; otherwise the final order goes to an active node with the most map outputs and reads all current map outputs. |
| MartaJob.Job.NoCombinerReducePlanning | MaRTA/src/Planning/ReducePlanning.c:59-131 | It returns, over any number of restarts, only with the final reduce over all current map outputs done and copied; the replies run out only when there were no more than 2m + 1 for each failure, m being the number of maps. |
| MartaJob.Job.CombinerPartialsReducePlanning | MaRTA/src/Planning/ReducePlanning.c:133-154 | One order per node that has map outputs, for exactly these, so none only if there are no maps; the thread ends only when an order cannot be sent. |
| MartaJob.Job.PartialReplies | MaRTA/src/Planning/ReducePlanning.c:204-212 | All replies are awaited, one for each partial. There is one fallen node for every failed one and none exactly when the round is done; every node a failed reply names is among them, and each is named by one or is the node of a reduce; exactly the outputs of the maps on them are lost. |
| MartaJob.Job.RePlanFallen | MaRTA/src/Planning/ReducePlanning.c:213-218 | Every map of every fallen node has been ordered again since the call, wherever the ones before it went; no output is lost any more and the counter is back at the number of maps. |
| MartaJob.Job.PartialsRound | MaRTA/src/Planning/ReducePlanning.c:200-229 | False means a round in which no partial failed. After a failure it returns only with all maps done again and no output lost on a fallen node, and the partials forgotten, after at most 2m + 1 replies for each failure. |
| MartaJob.Job.LeastLoadedPartialNode | MaRTA/src/Planning/ReducePlanning.c:156-179 | The first of the least loaded active nodes with a partial result; none exactly when none of them is active. |
| MartaJob.Job.CombinerFinalReducePlanning | MaRTA/src/Planning/ReducePlanning.c:172-191 | The program stops at the null pointer if and only if no node with a partial result, which is to say no node with a map output, is active when it looks; otherwise the final order goes to the first of the least loaded active ones and reads exactly the partial results of the round. |
| MartaJob.Job.CombinerReducePlanning | MaRTA/src/Planning/ReducePlanning.c:193-248 | It returns, over any number of restarts, only with the final reduce done and copied; without maps it always stops at the null pointer; the replies run out only when there were no more than m for m maps, and 2m + 1 for each failure. |
| MartaJob.Job.AcceptJob | MaRTA/src/Connections/JobConnection.c:11-37 | Over whole runs the conversation is legal: reduces only when all maps are done, none is outstanding and every map of a fallen node has been ordered again, the final one only over the current outputs after every partial succeeded; RESULT_OK is sent, last, exactly when the thread gets to its end, and the maps then cover all blocks if and only if each block had a live holder at its moment. Whenever it does not get there, there is a reason: fewer than (2m + 1)(1 + f) replies for m maps and f failures, a message that could not be sent, an unlisted file, a planned block without a live holder left, no room for the copy, or no active node with a map output. Progress: with every file listed, some block live, every block that is ever live keeping all its holders, and no message or copy failing, that many replies for m blocks are enough. |
| MartaJob.OnAnUnheldBlock | MaRTA/src/Planning/ReducePlanning.c:172-182 | A job on one listed block whose only holder has been taken out before the planning: in combiner mode the program stops at the null pointer, in the other mode the job ends in order. |
| MartaJob.OnASkippedBlock | MaRTA/src/Planning/MapPlanning.c:58-61 | A job on two blocks of which one has no live holder: in either mode RESULT_OK is reported, with one map. |
| MartaLoad.StepKeepsMapLoad | MaRTA/src/structs/node.c:50-58 | Every step of every job keeps: for each node and block the entries in the load list are at most the outstanding map orders. |
| MartaLoad.TotalAfter | MaRTA/src/structs/job.c:185-193 | A reduce order stays accounted for when its job dies: it moves from the outstanding ones to the lost ones. |
| MartaLoad.RunKeeps | MaRTA/src/structs/node.c:50-65 | In every state any jobs can reach, the map load is at most the outstanding orders and the reduce counter is the outstanding plus the lost reduce orders modulo 65536. |
| MartaLoad.CounterIsExact | MaRTA/src/structs/node.c:60-65 | Below 65536 the counter is never under the outstanding reduce orders, and equal to them on a node without lost ones. |
| MartaLoad.CounterNeverWraps | MaRTA/src/structs/node.c:60-65 | The decrement on a reply then never wraps. |
| MartaLoad.ReplanningAddsNoLoad | MaRTA/src/Planning/MapPlanning.c:99-111 | After any replanning the load of the new place is strictly below its outstanding orders. |
| MartaLoad.PlainLoadIsExact | MaRTA/src/Planning/MapPlanning.c:62-67 | Without replanning, skipped blocks and ended jobs the load equals the outstanding orders. |
| MartaLoad.ReleasedExactly | MaRTA/src/structs/node.c:50-58 | Releasing the load of some maps lowers the load of a block on a node by the number of those maps that are of it, and not below zero. |
| MartaLoad.OthersKeepTheirLoad | MaRTA/src/structs/node.c:50-58 | A block of a node of which none of these maps is keeps its load. |
| MartaLoad.FreedIsExactIff | MaRTA/src/structs/job.c:185-186 | Ending a job keeps an exact load exact on a block of a node if and only if the job has no map there whose reply has come, or no other job has an order there. |
| MartaLoad.SkippedIsExactIff | MaRTA/src/Planning/MapPlanning.c:58-61 | Skipping a block keeps it exact if and only if the job has no map there or no order is outstanding there. |
| MartaLoad.Scheduler.RemoveMap | MaRTA/src/structs/node.c:50-58 | The first entry of the block leaves the node's list, and nothing else. |
| MartaLoad.Scheduler.PlanMap | MaRTA/src/Planning/MapPlanning.c:62-67 | An order and a load entry are added; the invariant holds. |
| MartaLoad.Scheduler.RePlanMap | MaRTA/src/Planning/MapPlanning.c:99-111 | The order moves to its new place without a load entry; the invariant holds. |
| MartaLoad.Scheduler.MapResult | MaRTA/src/Connections/JobConnection.c:157-187 | The map no longer runs, one entry goes from its block on its node if there is any, and no other load changes; the invariant holds. |
| MartaLoad.Scheduler.SkipBlock | MaRTA/src/Planning/MapPlanning.c:58-61 | For every block of every node the load goes down by the number of maps the job has there, and not below zero; reduces and jobs stay as they are; the invariant holds. |
| MartaLoad.Scheduler.NotificarReduce | MaRTA/src/Planning/ReducePlanning.c:21-24 | The counter goes up by one, wrapping at 16 bits; the invariant holds. |
| MartaLoad.Scheduler.RemoveReduceNode | MaRTA/src/structs/node.c:60-65 | The counter goes down by one, wrapping at zero; the invariant holds. |
| MartaLoad.Scheduler.FreeJob | MaRTA/src/structs/job.c:185-193 | For every block of every node the load goes down by the number of maps the job had there, and not below zero; its reduces stay counted, as lost; the invariant holds. |
| MartaAccount.MessageIsAccounted | MaRTA/src/structs/node.c:50-65 | Every order and reply of a legal conversation comes with an accounting step that can happen, whatever other jobs did meanwhile, and afterwards the job's running maps and waiting reduces are those of the conversation again. |
| MartaAccount.ReduceStops | MaRTA/src/Connections/JobConnection.c:273-301 | A reply to a reduce takes exactly that reduce's node out of the waiting ones. |
| Lines.Sort | Nodo/src/node.c:139 | The same lines in byte order. |
| Lines.SortedUnique | Nodo/src/node.c:139 | Sorting does not depend on the order in which the parts were concatenated. |
| Lines.ByteOrder | Nodo/src/node.c:139 | A text sorts before another if it is a prefix of it or has the smaller byte where they first differ. |
| Lines.JoinedText | Nodo/src/node.c:139 | The bytes of joined files are the bytes of the files one after another, last newline or not. |
| Lines.CatPermuted | Nodo/src/connections/connections_job.c:179-201 | Gathering the same parts in another order gives the same lines. |
| WordCount.Reduce | Job/scripts/wordcount/reduce.py:1-22 | On sorted lines: one line for every word, in increasing order, with the sum of its counts, and no other. A line is the word, a space and the sum in decimal, digit by digit. |
| WordCount.DigitsOf | Job/scripts/wordcount/reduce.py:16-22 | The i-th digit from the right of a number that is written is the number divided by ten to the power of i, modulo ten; there are enough digits, and no leading zero. |
| WordCount.ReadsItsValue | Job/scripts/wordcount/reduce.py:10 | Reading a number gives the sum of its digits, each times its power of ten. |
| WordCount.TotalsInDecimal | Job/scripts/wordcount/reduce.py:7-22 | Every line of a reduction, as text: the word, a space, and the digits of its total. |
| WordCount.NodeReduce | Nodo/src/node.c:111-148 | The same for the pipeline on any parts. |
| WordCount.ReductionUnique | Job/scripts/wordcount/reduce.py:7-22 | Inputs with the same words and sums have the same reduction, line for line. |
| WordCount.ReductionKeepsTotals | Job/scripts/wordcount/reduce.py:7-22 | The reduction of some lines counts what the lines count. |
| WordCount.CombinerAgrees | Job/config2.cfg:5 | Reducing the per-node reductions gives the line sequence of reducing all map outputs, however they lie on the nodes and in whatever order the parts arrive. |
| WordCount.BothModes | Job/config3.cfg:5 | The job done in both modes writes the same lines. |
| Weather.Reduce | Job/scripts/weather/reduce.pl:1-33 | On sorted data lines: for every date and station the line with the highest temperature, the first of them in byte order, in increasing order and without the header; three semicolons on no input. On lines that start with three semicolons behind the data: the same, and what follows the semicolons of the first of them up to the next one is written behind them. |
| Weather.KeptIsHighest | Job/scripts/weather/reduce.pl:15-28 | No line of the same date and station has a higher temperature than the one that is kept, which is the first in byte order among equal ones; no header is kept. |
| Weather.OneIsKept | Job/scripts/weather/reduce.pl:15-33 | Of every date and station but the header's exactly one line is kept. |
| Weather.NodeReduce | Nodo/src/node.c:111-148 | The same for the pipeline on any parts, a part without a last newline running into the next one. |
| Weather.ReductionUnique | Job/scripts/weather/reduce.pl:10-33 | Only one list of lines is that for given lines. |
| Weather.ReductionOfPartials | MaRTA/src/Planning/ReducePlanning.c:172-191 | The reduction of what represents some lines is the reduction of the lines. |
| Weather.CombinerAgrees | MaRTA/src/Planning/ReducePlanning.c:133-191 | Combiner mode gives the lines of the other mode, for every distribution and order of arrival. |
| Weather.BothModes | Job/scripts/weather/reduce.pl:10-33 | For well-formed map outputs, every distribution of them and every order of arrival: with data the two modes write the same file if and only if every node has a line; without data, if and only if there is no line at all. |
| MartaResult.FinalReads | MaRTA/src/Planning/ReducePlanning.c:172-191 | In every legal conversation the final reduce of combiner mode reads the partial results, whose inputs together are the outputs of all maps, each once. |
| MartaResult.WordCountIsTheSame | MaRTA/src/Planning/ReducePlanning.c:193-248 | So after any failures and restarts the word count is the one a single reduce over all map outputs gives. |
| MartaResult.WeatherIsTheSame | MaRTA/src/Planning/ReducePlanning.c:193-248 | And so is the weather maximum. |

## Left out

- Splitter.GetBlocksFromStr: the loop that makes no progress is a result (`Hangs`), as is the call of CopyFileFromFS in
  which it happens (`NeverReturns`); block sizes are a parameter of at least 2 instead of the fixed 20 MB.
- Mdfs.FileSystem.Serve: moving and renaming are not among the requests of a run; MoveDir is modelled on its own.
- SlotStore.BinFile.SetBlockFromPacket: what lies behind the mapped file, where a full-slot block in the last slot puts its
  terminator, is not part of the model; 32-bit overflow of slot addresses and of text positions in files of 2 GB and more
  is not modelled.
- Planner.SortByBlocksFree: the order of nodes with equal free counts is that of an insertion sort; nothing proved
  depends on it.
- Mdfs.FileSystem.SendBlocks: the threads that send in parallel become one arbitrary outcome per transfer, and each
  request is one atomic step.
- Mdfs.FileSystem.CopyFileFromFS: the document store is two maps; an insertion may fail, updates and deletions do not;
  identifiers of new documents are fresh parameters.
- Mdfs.FileSystem.AddNode: names that differ only in case are different names; the bin file of a known node keeps its size.
- PathResolver.ResolveDirPath: the fixed-size path buffer is not modelled; empty segments are kept by the split and skipped
  by the resolver.
- Framing.Channel.SendPacket: after a transfer that failed half-way nothing is promised; success is promised for calls that
  all move something, not for every pattern of errors that the retries outlast.
- OrderCodec.OrderSurvives: time-stamped names are opaque and at most 59 bytes long.
- MartaJob.Job.RecvResult: a Job answers only orders it was given, and a lost connection is the end of its script; map and
  reduce records are values in the job's lists, addressed by index, so that two pointers to one record are not modelled.
- MartaJob.Job.PlanMaps: needs fewer than 65536 blocks in all, the range of the 16-bit map ids.
- MartaJob.Job.RePlanMap: the repeated listing request is one more arbitrary change of the node table; the blocks it
  appends to the job's file records are never read and are not modelled.
- MartaJob.Job.LeastLoaded: node load appears as one number of the node table here; how it is kept is MartaLoad.
- MartaJob.Job.CopyFinalTemporal: the reply of the file system is arbitrary; that it stores the result is not part of it.
- MartaLoad.Scheduler.UpdateNodes: a node list entry is its load only; activity and address are in BlockListing.
- WordCount.Reduce: lines are a word, a space and a decimal number, as the mapper and the reducer write them; sort orders by
  bytes; on no input the program stops with an exception after writing nothing, which the pipeline does not notice.
- Weather.Reduce: lines the mapper writes have exactly four fields and a date, headers are alike and sort behind the data,
  and dates start with a byte below the semicolon, as digits do; the numeric reading of a field is a parameter, and numbers
  are reals.
- Weather.NodeReduce: an empty part is a file without bytes. The program maps every part it gathers, and mapping an empty one
  fails (Nodo/src/node.c:165-168), so this holds for a node whose only part is empty, which is read without mapping.
- filesystem_copyTmpFileToMDFS, whose failure branch frees the file record before undoing the allocation.
- The map order and map result messages, and the messages of a fallen reduce node between Nodo, Job and MaRTA: easier
  instances of the codecs that are modelled.
- Connecting, handshakes, retries and sleeps, the alive checker, mutexes, configuration, console, logging, md5, memory
  ownership, mapped files and shell commands.
- The twitter scripts, the mapper programs, renaming and moving files: members without a hard property.
