# DMM in Dafny

DMM puts user-space network stacks behind one socket interface. This project models the
parts of it that keep shared state consistent, and proves what they are meant to keep:

- **Red-black tree of watched descriptors** (`RbZipper`, `RbMemory`, `RbSteps`, `RbUnlink`,
  `RbTree`, `EpollTree`). Nodes are records in a heap with parent, left and right links.
  The tree they form is followed as a mark: the subtree under the cursor and the way up
  from it. Rotations, both fix-up loops, insertion, removal and the search are methods on
  the heap.
- **Segment allocator** (`SegRing`, `SegChain`, `Segment`, `SegmentRuns`, `SegmentClient`).
  A segment is a sequence of 64-byte units with section headers in it. The physical chain,
  the circular free list and the names are three views of the same headers.
- **Life of one descriptor** (`FdProtocol`). Any number of threads take references, close
  and release; every atomic access is one step, and a run is any schedule of steps.
- **SHA-256** (`Fips180`, `Sha256Constants`, `Sha256`). `Fips180` is sections 4 to 6 of
  FIPS 180-4, with constants that are proved to come from the first 64 primes; `Sha256` is
  the incremental code with its own tables, registers that are renumbered instead of moved
  and a schedule kept in sixteen words.
- **Snapshot codec** (`SnapshotFormat`, `SnapshotStore`, `SnapshotRestore`,
  `SnapshotBounds`, `SnapshotReach`). Objects are stored and restored by descriptors; writer
  and reader may know different members.
- **Leak scanner** (`LeakScanner`, `LeakRace`). The pool of epitems with its FIFO ring,
  processes that are held up or die between two writes, and the scanner that puts lost
  items back.
- **Module start-up** (`ModuleInit`). The walk that initialises modules in the order of
  their dependencies and starts again after each one.
- **Timers** (`Timers`, `TimerRuns`, `TimerOrder`). Registration, removal and the call that
  counts ticks, with callbacks that register and remove timers themselves.
- **Route list** (`RouteList`). The list of routes by mask length, with nodes that are
  freed while the list is walked.

Ten promises turn out not to hold as the code stands. For each of them there is a
concrete run and the exact condition under which the code does what is promised:

- An allocation that uses up all free units of a section leaves the section in the free
  list, and freeing next to it destroys the list (`Segment.ExactFitBreaks`). The list
  stays well formed if and only if neither section involved is such a member
  (`Segment.FreedListIff`), and an allocation from a clean list leaves it clean if and
  only if no section has exactly the units asked for (`Segment.AllocSeen`).
- The body of `epoll_ctl` can run on a descriptor that is released
  (`FdProtocol.EpollAfterRelease`). It runs on one that is not open, closing or released,
  if and only if the first of its two status reads did not find it open
  (`FdProtocol.EpollBody`).
- The byte counter of SHA-256 misses a carry after a piece of 2^33 bytes
  (`Sha256.LongPieceMiscounted`). After any pieces the count is right if and only if none of
  them was too long for its carry test (`Sha256.HighCounted`).
- The announced length of an object and the length that storing needs differ for types of
  128 and above (`SnapshotStore.LengthOfType200`), and agree for all buffers if and only if
  the two types they look up have the same length (`SnapshotStore.LengthAnnouncedIff`).
- A process that has cleared the pid of an item and not yet unmarked it can lose it to the
  scanner, and then puts an item into the ring that another process uses. This happens with
  the values that are registered, to a process that is not held up at all
  (`LeakRace.LateFreeHarms`). A run is safe if and only if no check finds an item overdue
  while a process has it in its hands (`LeakScanner.OneOwner`), which among processes in
  time happens only to one that has cleared the pid (`LeakScanner.RaceCleared`), and never
  if the pid is cleared early enough (`LeakScanner.CalmSafe`).
- The close lock can have two owners (`FdProtocol.LockShared`). It has two if and only if it
  is taken and nobody has unlocked it while it was free since the release reset it, and it
  never has three (`FdProtocol.LockExclusive`).
- A malformed snapshot can write behind an array member (`SnapshotBounds.ElementTooMany`).
  A byte can be changed by some buffer of a given length if and only if its offset is within
  reach of that length (`SnapshotReach.ChangeIff`), so that only described bytes can be
  changed if and only if all those within reach are described
  (`SnapshotReach.DescribedIff`).
- A callback that removes its own timer and registers others can get the same timer info
  back, and the new timer is then removed without having fired (`Timers.OwnRemovalLost`).
  A timer is lost if and only if some callback does get its own info back
  (`Timers.LostIff`).
- Of the dependencies declared for a module only the first and the last are recorded; one
  is lost if and only if three different ones are declared (`ModuleInit.LostNames`,
  `ModuleInit.MiddleLost`).
- The comment on the route insertion promises that an equal prefix is updated in place.
  The code compares zero instead of the new prefix, so that the prefix is then listed twice
  (`RouteList.SamePrefixTwice`) or a different one is overwritten
  (`RouteList.ZeroPrefixAbsorbs`). `RouteList.InPlaceIff` says exactly when the promise is
  kept.

Machine integers are unbounded here, except where they wrap in a way that matters: the
32-bit ring counters and the 16-bit check count of the scanner, the byte count and all
words of SHA-256, and the 64-bit size of a segment are modelled with their widths.

`dafny verify dfyconfig.toml` checks the whole project.

## Model

| member | source | states |
|---|---|---|
| RbTree.RbRoot.RotateLeft | src/framework/common/data_struct/eprb_tree.c:50-94 | the heap holds the same tree with this one rotation at the mark, the in-order sequence is kept, and no record outside the tree changes |
| RbTree.RbRoot.RotateRight | src/framework/common/data_struct/eprb_tree.c:96-140 | the mirror image: same in-order sequence, links of the heap agree with the rotated tree, nothing else changes |
| RbMemory.RotateLeftRep | src/framework/common/data_struct/eprb_tree.c:50-94 | the link assignments of a left rotation turn a heap that represents a tree into one that represents the rotated tree, with all parent links |
| RbMemory.RotateRightRep | src/framework/common/data_struct/eprb_tree.c:96-140 | the same for a right rotation |
| RbTree.RbRoot.FixLeft | src/framework/common/data_struct/eprb_tree.c:146-228 | one round of the insertion fix-up keeps the only red-red edge at the mark and either removes it or moves the mark up |
| RbTree.RbRoot.FixRight | src/framework/common/data_struct/eprb_tree.c:146-228 | the mirror image of FixLeft |
| RbTree.RbRoot.InsertColor | src/framework/common/data_struct/eprb_tree.c:146-228 | ends, and leaves a valid red-black tree (black root, no red-red edge, equal black heights, parent links) with the in-order sequence it was given |
| RbTree.RbRoot.LinkNode | src/framework/common/include/eprb_tree.h:65-76 | the new node is a red leaf in exactly the null slot given, and only it and its parent change |
| RbTree.RbRoot.RepayLeft | src/framework/common/data_struct/eprb_tree.c:230-369 | one round of the removal fix-up: the subtree at the mark is one black node short and nothing else is wrong; the round ends the debt or moves it up |
| RbTree.RbRoot.RepayRight | src/framework/common/data_struct/eprb_tree.c:230-369 | the mirror image of RepayLeft |
| RbTree.RbRoot.RepayLeftEnd | src/framework/common/data_struct/eprb_tree.c:270-302 | with a red nephew the debt is paid: the whole tree is red-black again, in the same order |
| RbTree.RbRoot.RepayRightEnd | src/framework/common/data_struct/eprb_tree.c:329-369 | the mirror image of RepayLeftEnd |
| RbTree.RbRoot.EraseColor | src/framework/common/data_struct/eprb_tree.c:230-369 | ends, and turns a tree that is one black node short below the mark into a valid red-black tree with the same in-order sequence |
| RbTree.RbRoot.EraseSingle | src/framework/common/data_struct/eprb_tree.c:457-486 | a node with at most one child is taken out: the tree that is left is red-black and has the order without it |
| RbTree.RbRoot.LinkSuccessor | src/framework/common/data_struct/eprb_tree.c:387-446 | after all link assignments the successor stands in the place of the removed node with its colour and children, and its child stands in its own old place |
| RbTree.RbRoot.EraseDouble | src/framework/common/data_struct/eprb_tree.c:387-455 | a node with two children is taken out by its in-order successor; the tree that is left is red-black |
| RbTree.RbRoot.Erase | src/framework/common/data_struct/eprb_tree.c:371-486 | for every red-black tree and every node in it: ends, leaves a red-black tree whose in-order sequence is the old one without exactly that node, and changes no record outside that tree |
| RbTree.RbRoot.First | src/framework/common/data_struct/eprb_tree.c:28-48 | the first node of the in-order sequence, or null for the empty tree |
| RbTree.SucceedOrder | src/framework/common/data_struct/eprb_tree.c:387-446 | moving the successor up removes exactly the node from the in-order sequence |
| RbTree.SucceedInv | src/framework/common/data_struct/eprb_tree.c:387-455 | after the move the tree is one black node short below the mark if the successor was black and red-black otherwise, and its order lacks exactly the node |
| RbTree.SplicedInv | src/framework/common/data_struct/eprb_tree.c:457-486 | taking out a node with at most one child leaves a debt of one black node if the node was black and a red-black tree otherwise |
| RbUnlink.SucceedRep | src/framework/common/data_struct/eprb_tree.c:387-446 | the records written by the removal of a node with two children represent the tree with the successor moved up |
| EpollTree.Eventpoll.FindEp | src/adapt/nstack_epoll_comm.c:34-68 | returns an item exactly when its descriptor is in the tree, after at most twice the black height of visits, so the loop count that would cut the search short is never reached |
| EpollTree.Eventpoll.RbtreeInsert | src/nSocket/nstack/event/epoll/nstack_eventpoll.c:178-207 | the tree stays sorted by descriptor and red-black and gains exactly the new item |
| EpollTree.Eventpoll.Unlink | src/adapt/nstack_epoll_comm.c:70-93 | a linked item leaves the tree, which stays sorted and red-black, and is marked unlinked; an unlinked one gives ENOENT and changes nothing |
| RbZipper.HeightBound | src/adapt/nstack_epoll_comm.c:34-68 | a balanced subtree without red-red edges has height at most twice its black height, one more under a red root, and at least 2^(black height) - 1 nodes |
| SegChain.CalcNum | src/framework/mem/dmm_segment.c:77-88 | the fewest units that hold a header and the payload, at least two |
| SegChain.AllTiled | src/framework/mem/dmm_segment.c:90-130 | used and free units of all sections add up to all units but the last header |
| SegChain.CarvedChain | src/framework/mem/dmm_segment.c:163-238 | after a section is carved from the tail of another, walking the chain forward and backward meets the same headers, the new one among them |
| SegChain.CarvedTotals | src/framework/mem/dmm_segment.c:163-238 | used units and requested bytes grow by exactly the new section |
| SegChain.MergedChain | src/framework/mem/dmm_segment.c:240-294 | after a section is merged into its predecessor both walks agree on the chain without it |
| SegChain.MergedTotals | src/framework/mem/dmm_segment.c:240-294 | used units and requested bytes shrink by exactly the freed section |
| SegRing.UnlinkRing | src/framework/mem/dmm_segment.c:240-294 | bypassing a member leaves a doubly linked ring of the others in order |
| SegRing.LinkRing | src/framework/mem/dmm_segment.c:163-238 | linking a section between two neighbours gives a doubly linked ring with it in that place |
| Segment.AlignSection | src/framework/mem/dmm_segment.c:345-362 | the whole units that fit behind the aligned base, and -1 exactly when they are too few for a segment or too many for an int, also when size minus padding wraps |
| Segment.CreateSegment | src/framework/mem/dmm_segment.c:364-410 | null exactly when the memory is too small or too large; otherwise a valid segment with one free run on its first section and a free list of just that section |
| Segment.DmmSegment.FindFit | src/framework/mem/dmm_segment.c:163-238 | the first listed section with enough free units, and none exactly when no listed section has enough |
| Segment.BestFit | src/framework/mem/dmm_segment.c:163-238 | the first sufficient member of the ascending list has the least sufficient free space of all sections |
| Segment.DmmSegment.MemAlloc | src/framework/mem/dmm_segment.c:163-238 | fails, changing nothing, exactly when no section has enough free units; otherwise carves a best fit and keeps chain, list, names and totals; from a clean list it leaves a clean one exactly when no section is an exact fit |
| Segment.AllocSeen | src/framework/mem/dmm_segment.c:163-238 | exactly one section is new, and the list stays clean if and only if no section had exactly the units asked for |
| Segment.AllocClean | src/framework/mem/dmm_segment.c:163-238 | from a clean list, the list stays clean if and only if the section carved had more units than asked for |
| Segment.DmmSegment.MemFree | src/framework/mem/dmm_segment.c:240-294 | the section joins its predecessor; chain, names and totals are right in every case; the free list is well formed again if and only if neither section was a used-up member, and otherwise a predecessor that was one becomes its own successor |
| Segment.FreedListIff | src/framework/mem/dmm_segment.c:240-294 | after the free there is a well-formed free list if and only if neither section was in the list without free units |
| Segment.CleanIsSafe | src/framework/mem/dmm_segment.c:240-294 | with a clean list every user section can be freed safely |
| Segment.FreeClean | src/framework/mem/dmm_segment.c:240-294 | freeing keeps a clean list clean |
| Segment.ExactFitBreaks | src/framework/mem/dmm_segment.c:163-294 | for every fresh segment: allocating exactly its free units and freeing them again leaves a first section that is its own successor, and no free list |
| Segment.PayloadsApart | src/framework/mem/dmm_segment.c:163-238 | every payload holds the bytes asked for, shares no unit with another payload and contains no header |
| Segment.UserWrites | src/framework/mem/dmm_segment.c:163-238 | whatever clients write into their payloads, chain, list, names and totals stay as they are |
| Segment.EmptySegment | src/framework/mem/dmm_segment.c:364-410 | a well-formed segment without user sections is the segment as created |
| Segment.DmmSegment.FreeAll | src/framework/mem/dmm_segment.c:240-294 | freeing all user sections in any order gives back the segment as created |
| Segment.DmmSegment.MemLookup | src/framework/mem/dmm_segment.c:145-161 | finds a live section by name exactly when the name is in the map of live names |
| Segment.DmmSegment.MemMap | src/framework/mem/dmm_segment.c:492-524 | succeeds exactly when the name is well formed and not taken and some section has room, and then adds exactly this name to the map; otherwise changes nothing |
| Segment.DmmSegment.MemUnmap | src/framework/mem/dmm_segment.c:526-543 | succeeds exactly for a live name and removes exactly that name from the map |
| Segment.AllocNames | src/framework/mem/dmm_segment.c:163-238 | an allocation changes no live name, although the unit of the new header may hold the name of a freed one |
| Segment.FreeNames | src/framework/mem/dmm_segment.c:240-294 | a free removes exactly the name of the section, although its old header keeps it |
| SegmentRuns.Run | src/framework/mem/dmm_segment.c:163-294 | every run of allocations, frees, maps and unmaps keeps the segment valid with a clean list and its sections exactly the blocks the client holds; it stops only before an exact fit |
| SegmentRuns.RunAndFree | src/framework/mem/dmm_segment.c:163-410 | after every such run on a fresh segment, freeing what is left gives back the segment as created |
| SegmentRuns.IsExact | src/framework/mem/dmm_segment.c:163-238 | the first fit on the list tells whether any section is an exact fit |
| SegmentClient.RunActs | src/framework/mem/dmm_segment.c:145-294 | every run of allocations, frees, maps, unmaps and writes into payloads, through exact fits, keeps the segment valid, its user sections exactly the client's blocks, and its live names exactly the map the client kept from the answers; it stops only before a free that would destroy the list |
| SegmentClient.RunFresh | src/framework/mem/dmm_segment.c:145-410 | the same from the creation of the segment on |
| SegmentClient.IsSafe | src/framework/mem/dmm_segment.c:240-294 | walking the free list tells whether a free is safe |
| SegmentClient.FreedNames | src/framework/mem/dmm_segment.c:240-294 | a free takes exactly the names of the freed address out of the map |
| SegmentClient.IsOwn | src/framework/mem/dmm_segment.c:163-238 | a unit in a payload of the client is no header, and nothing else is taken for one |
| SegmentClient.DoWrite | src/framework/mem/dmm_segment.c:163-238 | writing anything into such a unit keeps the segment, the blocks and the names |
| FdProtocol.StepInv | src/nSocket/nstack/nstack_socket.h:97-187 | every atomic step of every thread keeps the reference count equal to the references held, the lock bit in step with its owners, and the places of all threads compatible with status and lock |
| FdProtocol.RunInv | src/nSocket/nstack/nstack_socket.h:97-187 | so after every schedule of every number of threads |
| FdProtocol.OnceOnly | src/nSocket/nstack/nstack_socket.c:985-1128 | in every run at most one close succeeds, and the release is done at most once and only after it |
| FdProtocol.OnlyClosedRefuses | src/nSocket/nstack/nstack_socket.h:97-187 | in every run a socket call, epoll_ctl or close is turned away only while the descriptor is not open |
| FdProtocol.SocketServed | src/nSocket/nstack/nstack_socket.h:133-146 | whatever the other threads hold, a socket call is let through if and only if the descriptor is open, and its reference is taken and given back |
| FdProtocol.CloseServed | src/nSocket/nstack/nstack_socket.c:1067-1128 | a close of an open descriptor whose lock is free succeeds, whatever references other threads hold |
| FdProtocol.EpollServed | src/nSocket/nstack/nstack_socket.h:97-131 | with the lock free the body of epoll_ctl is reached with both tests passed if and only if the descriptor is open |
| FdProtocol.NotReleasedInUse | src/nSocket/nstack/nstack_socket.c:985-1062 | in every run, while a release has begun or is done no thread that passed its open check still holds its reference |
| FdProtocol.NotLeaked | src/nSocket/nstack/nstack_socket.c:985-1128 | in every run, once a close succeeded and all threads are idle the descriptor is closed and was released exactly once |
| FdProtocol.LockExclusive | src/nSocket/nstack/nstack_socket.h:173-187 | in every run two threads own the close lock if and only if it is taken and no thread has unlocked a free lock since the release reset it; three never do |
| FdProtocol.LockShared | src/nSocket/nstack/nstack.c:492-498 | a schedule of two threads that are both inside the close lock |
| FdProtocol.EpollBody | src/nSocket/nstack/nstack_socket.h:97-131 | in every run the second status test never fails, and the body of epoll_ctl runs on an open descriptor if and only if the first status read found it open |
| FdProtocol.EpollAfterRelease | src/nSocket/nstack/nstack_socket.h:97-131 | a schedule of two threads in which the body of epoll_ctl runs on a released descriptor |
| Sha256.SigmasAgree | src/framework/common/data_struct/sha256.c:83-86 | the four shift-and-or macros are the sigma functions of section 4.1.2 of FIPS 180-4 |
| Sha256.ChooseAgrees | src/framework/common/data_struct/sha256.c:49-50 | the shortened choice macro is Ch |
| Sha256.MajorityAgrees | src/framework/common/data_struct/sha256.c:49-50 | the shortened majority macro is Maj |
| Sha256.CycledRound | src/framework/common/data_struct/sha256.c:54-65 | one in-place cycle on renumbered registers is one round of the shifting definition, for every round number |
| Sha256.ExtendedWindow | src/framework/common/data_struct/sha256.c:56-57 | overwriting one of sixteen words gives the next schedule word and keeps the window of the last sixteen |
| Sha256.Context.Cycle | src/framework/common/data_struct/sha256.c:54-65 | the three assignments in a row have the effect of one cycle, and the buffer moves on by one schedule word |
| Sha256.Context.Mix | src/framework/common/data_struct/sha256.c:141-180 | the four times sixteen cycles give the registers after the 64 rounds of section 6.2.2, over the 64-word schedule of the block |
| Sha256.Context.Compile | src/framework/common/data_struct/sha256.c:141-190 | the hash value becomes the compression of section 6.2.2 of the old one with the block |
| Sha256.Context.Set | src/framework/common/data_struct/sha256.c:342-358 | the state of the empty message |
| Sha256.Context.CopyIn | src/framework/common/data_struct/sha256.c:220-230 | exactly the bytes from the given position on are overwritten, in little-endian words |
| Sha256.Context.Swap | src/framework/common/data_struct/sha256.c:70-78 | exactly the first words have their bytes reversed |
| Sha256.SwapReads | src/framework/common/data_struct/sha256.c:39-41 | the rotate-and-mask swap reads the four bytes of a little-endian word in big-endian order |
| Sha256.BlockHolds | src/framework/common/data_struct/sha256.c:219-238 | a block completed from stored and new bytes extends the hash of the message by exactly that block |
| Sha256.Context.Feed | src/framework/common/data_struct/sha256.c:207-252 | after the loop and the copy of the rest, hash and buffer stand for the longer message |
| Sha256.Context.Update | src/framework/common/data_struct/sha256.c:207-252 | hash, buffer and low count stand for the message with the piece appended, for every piece; the high count does if and only if the piece is under 2^32 bytes or low count and piece together are under 2^33 |
| Sha256.CountCarry | src/framework/common/data_struct/sha256.c:215-218 | adding one on the carry test gives the high word of the new count if and only if the piece is under 2^32 bytes or low count and piece together are under 2^33 |
| Sha256.HighCounted | src/framework/common/data_struct/sha256.c:207-252 | over any pieces the counted high word is never ahead of the true one, and equals it if and only if no piece was too long for its test: a carry that was missed is never made up for |
| Sha256.LongPieceMiscounted | src/framework/common/data_struct/sha256.c:207-252 | set and one update of 2^33 bytes leave a count of 2^32 bytes |
| Sha256.MarkedFilled | src/framework/common/data_struct/sha256.c:271-285 | swapping the started words and masking the last one gives the padded message up to the word with the padding bit |
| Sha256.LengthWords | src/framework/common/data_struct/sha256.c:309-310 | the two shifted counts are the two words of the counted length in bits, for all counts |
| Sha256.CountsHash | src/framework/common/data_struct/sha256.c:303-311 | the block completed with any length gives the hash of the message padded with that length |
| Sha256.Context.Mark | src/framework/common/data_struct/sha256.c:269-301 | the block with the padding bit is compressed exactly when it has no room for the length |
| Sha256.Context.CloseBlock | src/framework/common/data_struct/sha256.c:303-311 | zeros and counts complete the last block, and the hash is that of the message padded with the counted length |
| Sha256.Context.Finish | src/framework/common/data_struct/sha256.c:268-319 | the first bytes of the digest of the message padded with the counted length, which is the FIPS 180-4 digest when the count is right |
| Sha256.HashPieces | src/framework/common/data_struct/sha256.c:207-377 | set, any number of updates of any lengths and fin give the digest of the joined message padded with the counted length; that length is the true one if and only if no piece was too long for its carry test, and so the digest is that of FIPS 180-4 for every cut into pieces under 2^32 bytes |
| Sha256Constants.RoundConstants | src/framework/common/data_struct/sha256.c:105-122 | the 64 round constants of the standard are the first 32 bits of the fractional parts of the cube roots of the first 64 primes |
| Sha256Constants.InitialHash | src/framework/common/data_struct/sha256.c:327-330 | the initial hash value is that of the square roots of the first eight primes |
| Sha256Constants.FirstPrimes | src/framework/common/data_struct/sha256.c:105-122 | the primes used are the first 64: each is prime and there is none in between |
| Sha256.TablesAgree | src/framework/common/data_struct/sha256.c:105-122 | the octal table of the code and its initial values are those of the standard |
| Sha256.ConstantsAgree | src/framework/common/data_struct/sha256.c:105-122 | so each round adds the word of the standard |
| Sha256.InitialAgrees | src/framework/common/data_struct/sha256.c:327-330 | and the hash starts with the words of the standard |
| Sha256.OutReads | src/framework/common/data_struct/sha256.c:313-316 | the bytes put out for a word read back as the word, first byte first |
| Sha256.AbsorbPieces | src/framework/common/data_struct/sha256.c:207-252 | after any pieces the context stands for the joined message, with the high count of the carry tests |
| SnapshotFormat.TagFields | src/framework/include/nsfw_snapshot.h:36-49 | packing a tag and reading its fields are inverse for all object and member types below 128, and the three kinds of tag are told apart |
| SnapshotFormat.Digits | src/framework/snapshot/fw_ss_tlv.h:28-33 | the bytes of a type or length read back as the number |
| SnapshotFormat.StoredFrame | src/framework/snapshot/fw_snapshot.c:83-225 | what is stored depends on its own bytes alone, so later writes elsewhere keep it |
| SnapshotFormat.ElementsWhole | src/framework/snapshot/fw_snapshot.c:151-166 | an array member holds as many whole objects as fit into its length and no more |
| SnapshotFormat.FindsFirst | src/framework/snapshot/fw_snapshot.c:46-58 | of several descriptors of a type the first is found |
| SnapshotFormat.FindsFirstMem | src/framework/snapshot/fw_snapshot.c:60-72 | of several members with a tag the first is found |
| SnapshotStore.FindDesc | src/framework/snapshot/fw_snapshot.c:46-58 | the first descriptor of the type, or none |
| SnapshotStore.StoreObj | src/framework/snapshot/fw_snapshot.c:83-225 | for every object, buffer and length: succeeds exactly when all types are registered and the size fits, returns exactly the size, leaves the nested layout with right lengths, and writes nothing outside the given room |
| SnapshotStore.StoreMem | src/framework/snapshot/fw_snapshot.c:145-223 | the same for one member of any kind |
| SnapshotStore.StoreLeaf | src/framework/snapshot/fw_snapshot.c:198-222 | the same for a plain member |
| SnapshotStore.StoreArray | src/framework/snapshot/fw_snapshot.c:151-185 | the same for an array of objects with its header |
| SnapshotStore.StoreElements | src/framework/snapshot/fw_snapshot.c:166-185 | the elements are stored one after the other and the array header holds their length |
| SnapshotStore.Store | src/framework/snapshot/fw_snapshot.c:236-241 | the result and layout for the object type, taken modulo 128 as the tag does |
| SnapshotStore.StoreLength | src/framework/snapshot/fw_snapshot.c:430-477 | the size of the registered object, or -1 when the type or one inside it is not registered |
| SnapshotStore.LengthAnnounced | src/framework/snapshot/fw_snapshot.c:430-477 | for types below 128 and every buffer: storing succeeds if and only if the announced length is there and fits, and returns exactly it |
| SnapshotStore.LengthAnnouncedIff | src/framework/snapshot/fw_snapshot.c:236-241 | for every type: announced and needed length agree for all buffers if and only if the type and its last seven bits have the same length |
| SnapshotStore.LengthOfType200 | src/framework/snapshot/fw_snapshot.c:236-241 | a table in which a length is announced for type 200 and storing it fails with every buffer |
| SnapshotStore.MemLength | src/framework/snapshot/fw_snapshot.c:436-474 | the length of one member of any kind, or -1 when a type is missing |
| SnapshotRestore.Target.Restore | src/framework/snapshot/fw_snapshot.c:299-422 | ends for every buffer and every table, also with malformed lengths and cyclic descriptors, with the result and memory of the recursive definition |
| SnapshotRestore.Target.RestoreOne | src/framework/snapshot/fw_snapshot.c:358-419 | the same for one member, an unknown one being skipped whole |
| SnapshotRestore.Target.RestoreObjects | src/framework/snapshot/fw_snapshot.c:252-289 | the same for an array of objects |
| SnapshotRestore.FindMember | src/framework/snapshot/fw_snapshot.c:60-72 | the first member with the tag, or none |
| SnapshotRestore.RestoreStored | src/framework/snapshot/fw_snapshot.c:83-422 | for every address: restoring what a writer stored, with a member in every object and an element in every array that the reader meets, succeeds, copies the byte if writer and reader both have a plain member there, through nested objects and arrays, and leaves it otherwise |
| SnapshotRestore.StoredEmpty | src/framework/snapshot/fw_snapshot.c:299-422 | a stored object in which the reader meets an object without members or an array without elements is refused |
| SnapshotRestore.MembersStored | src/framework/snapshot/fw_snapshot.c:352-420 | the same from any member on, with the cursor at that member |
| SnapshotRestore.MemberStored | src/framework/snapshot/fw_snapshot.c:358-419 | the same for one member, and the cursor moves on by exactly its size |
| SnapshotRestore.ElementsStored | src/framework/snapshot/fw_snapshot.c:268-288 | the same for the elements of an array from any element on |
| SnapshotRestore.SelfCompatible | src/framework/snapshot/fw_snapshot.c:60-72 | with distinct tags a table is compatible with itself |
| SnapshotRestore.StoreAndRestore | src/framework/snapshot/fw_snapshot.c:83-422 | store and restore, for every object type: once stored it is restored if and only if no object reached is empty, and then every byte under a plain member is copied to the other object and no other byte changes |
| SnapshotBounds.ReadsInside | src/framework/snapshot/fw_snapshot.c:252-422 | for every buffer, restoring gives the same result on any two buffers with the same bytes in the length given: nothing outside is read |
| SnapshotBounds.RefusedClears | src/framework/snapshot/fw_snapshot.c:404-417 | a plain member with more bytes than it has room for is refused by the checked copy and left cleared, and no other byte changes |
| SnapshotBounds.AllDescribed | src/framework/snapshot/fw_snapshot.c:83-225 | every byte of a plain member is described, and so is what an object inside it or any element of an array describes |
| SnapshotBounds.WritesDescribed | src/framework/snapshot/fw_snapshot.c:252-422 | with the checked copy, a buffer without too long an array changes bytes under plain members alone, whatever else is wrong with it and also when restoring fails |
| SnapshotBounds.ElementTooMany | src/framework/snapshot/fw_snapshot.c:252-289 | an array of one element and a buffer with two, whose second element is written behind the array |
| SnapshotBounds.TwoElementsExist | src/framework/snapshot/fw_snapshot.c:252-289 | there is such a buffer |
| SnapshotReach.ChangeIff | src/framework/snapshot/fw_snapshot.c:252-422 | for every table, memory and address, with the plain and the checked copy: some buffer of len bytes for the object changes the byte if and only if its offset is within reach of len bytes |
| SnapshotReach.DescribedIff | src/framework/snapshot/fw_snapshot.c:252-422 | with the checked copy no buffer of len bytes changes a byte outside the plain members if and only if all offsets within reach are under plain members |
| SnapshotReach.ObjKept | src/framework/snapshot/fw_snapshot.c:299-422 | whatever the buffer holds, an offset out of reach keeps its byte |
| SnapshotReach.ObjSet | src/framework/snapshot/fw_snapshot.c:299-422 | the buffer built for an offset within reach sets its byte, past any number of array elements |
| SnapshotReach.RestoredLength | src/framework/snapshot/fw_snapshot.c:345-357 | an object that is restored takes at least two headers |
| LeakScanner.AllocCountBound | src/framework/common/mem_mgr/nsfw_res_mgr.c:98-107 | with wrapped counters the count is at most the true one, and at most one less while that is below 2^32 |
| LeakScanner.AllocCountExact | src/framework/common/mem_mgr/nsfw_res_mgr.c:98-107 | the count is exactly the true distance modulo 2^32, less one when the counter wrapped in between |
| LeakScanner.ForcedIff | src/framework/common/mem_mgr/nsfw_res_mgr.c:109-157 | a check puts an item into the ring if and only if its pid is 0, enough checks were counted since its record began, the ring held few enough items when it was read, and enough items were put back since; and what it leaves in the record in every case |
| LeakScanner.ChecksCounted | src/framework/common/mem_mgr/nsfw_res_mgr.c:109-157 | in every run that does not disturb an item its record holds the number of its checks and the reading at the first of them |
| LeakScanner.ReadingKept | src/framework/common/mem_mgr/nsfw_res_mgr.c:159-237 | after every run the scanner goes by the counters and the number of items at the last reading |
| LeakScanner.CyclesCover | src/framework/common/mem_mgr/nsfw_res_mgr.c:302-344 | from cycle to cycle every item of the pool is reached, in the cycle its number says |
| LeakScanner.NotOverdue | src/framework/common/mem_mgr/nsfw_res_mgr.c:109-157 | an item in the ring never passes the test, since all that was put in behind it is still behind it |
| LeakScanner.NotOverdueInHand | src/framework/common/mem_mgr/nsfw_res_mgr.c:109-157 | nor does an item that a process in time has taken and not yet written its pid to, or has unmarked and not yet put back |
| LeakScanner.StepInv | src/framework/common/mem_mgr/nsfw_res_mgr.c:109-237 | every step of every process (dequeue, res_alloc, pid; pid, res_free, enqueue), every death and every check that is not a race keeps the ring without repetition, one holder an item, and what was written down about items in the ring or in hand close to the count when they moved |
| LeakScanner.RunInv | src/framework/common/mem_mgr/nsfw_res_mgr.c:109-344 | so after every run of such steps without a race |
| LeakScanner.CheckSafe | src/framework/common/mem_mgr/nsfw_res_mgr.c:109-157 | a check keeps the pool safe if and only if it does not find the item overdue while a process has it in its hands |
| LeakScanner.RaceCleared | src/adapt/nstack_epoll_comm.c:101-119 | for a process in time such a race is exactly an overdue item whose pid it has cleared and that it has not unmarked |
| LeakScanner.EarlyRaceless | src/adapt/nstack_epoll_comm.c:101-119 | no race while the process is in time, if the pid was cleared long enough before the item could be overdue |
| LeakScanner.OneOwner | src/adapt/nstack_epoll_comm.c:101-434 | in every run, with processes between any two of their steps or stopped there for good: in all states the ring has no repetition and an item in use or in hand has one holder and is not in the ring, if and only if no check of the run is a race |
| LeakScanner.CalmSafe | src/adapt/nstack_epoll_comm.c:101-434 | all states are safe in every run whose checks come while the process with the item is in time and whose pids are cleared early |
| LeakScanner.NeverForced | src/framework/common/mem_mgr/nsfw_res_mgr.c:109-157 | in every run without a race so far a check puts an item into the ring only if it is not there, and no process uses it or has it in hand unless the check is a race |
| LeakScanner.LeakForced | src/framework/common/mem_mgr/nsfw_res_mgr.c:109-157 | a leaked item is put back by a check that finds the ring low and more than total times factor items given back since the first check |
| LeakRace.LateFreeHarms | src/adapt/nstack_epoll_comm.c:101-119 | for every configuration of a pool with two items or more, a low mark and a check count that does not wrap: a run, safe in all its states, then a prompt check that is a race with a process in time, after which one process is given the item that another one uses |
| LeakRace.EpitemRacy | src/adapt/nstack_epoll_comm.c:856-863 | the configuration of the epitem pool is one of these |
| LeakScanner.CycleAllowed | src/framework/common/mem_mgr/nsfw_res_mgr.c:302-344 | an uninterrupted cycle of the scanner is a run of the state machine and keeps the invariant, whenever the processes with one of its items in hand stay in time and have not cleared a pid late |
| LeakScanner.EpitemConfig | src/adapt/nstack_epoll_comm.c:856-863 | the configuration of the epitem pool leaves room for 16384 items between reading the counters and a check, and 65536 while a process is held up |
| LeakScanner.Pool.AllocEpitem | src/adapt/nstack_epoll_comm.c:403-434 | takes the first item of the ring, or fails on an empty ring, as the three steps of the state machine, with 32-bit counters |
| LeakScanner.Pool.FreeEpitem | src/adapt/nstack_epoll_comm.c:101-119 | a marked item is unmarked and put back once; a second free changes only the pid |
| LeakScanner.Pool.GiveBack | src/adapt/nstack_epoll_comm.c:101-119 | giving an item back is the three steps of the state machine, giving it back again the one of a second free |
| LeakScanner.Pool.ForceFree | src/adapt/nstack_epoll_comm.c:237-255 | refuses an item with a pid and puts any other one into the ring |
| LeakScanner.Pool.ItemCheck | src/framework/common/mem_mgr/nsfw_res_mgr.c:109-157 | one check on 32-bit and 16-bit fields is the check step of the state machine, and is true exactly when the item is due by its checks, the level of the ring and the items put back since |
| LeakScanner.Pool.FlashData | src/framework/common/mem_mgr/nsfw_res_mgr.c:159-237 | reads the counters as the state machine does |
| LeakScanner.Pool.ScanArray | src/framework/common/mem_mgr/nsfw_res_mgr.c:302-344 | checks the next items in turn, at most a cycle of them, goes back to the start at the end, and keeps the invariant |
| LeakScanner.Pool.ScanCycle | src/framework/common/mem_mgr/nsfw_res_mgr.c:346-368 | reading the counters and one round of checks keep the invariant |
| ModuleInit.RecordedNames | src/framework/init/fw_module.c:209-232 | the names recorded for any sequence of declarations: the first, and the last that differs from it |
| ModuleInit.LostNames | src/framework/init/fw_module.c:209-232 | a declared dependency is lost if and only if three different ones are declared |
| ModuleInit.MiddleLost | src/framework/init/fw_module.c:209-232 | an example with three declarations |
| ModuleInit.Manager.Waits | src/framework/init/fw_init.c:30-42 | whether a recorded dependency is not ready |
| ModuleInit.Manager.DependCheck | src/framework/init/fw_init.c:44-70 | exactly the flags for this name in the other waiting modules are set |
| ModuleInit.FinishedFlags | src/framework/init/fw_init.c:44-70 | after a module is done, every flag of a waiting module again says whether another module of that name is done |
| ModuleInit.Manager.InitChild | src/framework/init/fw_init.c:78-148 | ends; calls each init at most once; the done list is a topological order of the recorded dependencies; on success exactly the least set closed under the dependencies is initialised; it succeeds if and only if every init function of that set does; on failure the module that failed is the last one called; each module is the first in the list that could be initialised at its turn, and those left over are marked as waiting |
| ModuleInit.TurnsInClosed | src/framework/init/fw_init.c:78-148 | modules initialised in turn lie in every closed set |
| ModuleInit.EndLeast | src/framework/init/fw_init.c:78-148 | when the walk reaches the end of the list the modules done are the least closed set |
| ModuleInit.LeastExists | src/framework/init/fw_init.c:78-148 | there is a least closed set |
| ModuleInit.TurnInLeast | src/framework/init/fw_init.c:78-148 | a module whose dependencies are done lies in the least closed set |
| ModuleInit.OrderFree | src/framework/init/fw_init.c:78-148 | lists with the same modules in another order have the same least closed set, and so the same modules done and the same success |
| ModuleInit.FreshFlags | src/framework/init/fw_module.c:112-128 | modules as created meet what the start-up asks for |
| ModuleInit.ModuleList.Add | src/framework/init/fw_module.c:239-258 | the list stays in the order of priorities, and the module comes after all of its own priority |
| ModuleInit.ModuleList.Del | src/framework/init/fw_module.c:260-277 | exactly this module leaves the list; a module that is not in it changes nothing |
| ModuleInit.ModuleList.SetPriority | src/framework/init/fw_module.c:186-197 | the module moves, or comes in, at the place of its new priority, after all of the same, and the others keep their order |
| TimerRuns.ExactlyOnce | src/framework/ipc/ps/nsfw_fd_timer.c:64-177 | in every run, for every registration made at the top or in a callback: if it is neither removed nor lost its callback is called in the first tick call by which the ticks counted since the registration amount to the time asked for, and in no other |
| TimerRuns.FiresOnTime | src/framework/ipc/ps/nsfw_fd_timer.c:64-177 | so in every run in which nobody asks for the removal of its info any more and no callback gets its own info back |
| TimerRuns.RunAsked | src/framework/ipc/ps/nsfw_fd_timer.c:64-95 | the record holds exactly the registrations that found a free info, with the times asked for |
| TimerRuns.RunClock | src/framework/ipc/ps/nsfw_fd_timer.c:142-162 | the clock is the sum of the ticks of all calls |
| TimerRuns.RemovedNever | src/framework/ipc/ps/nsfw_fd_timer.c:106-131 | a timer that waits and is removed never fires afterwards |
| TimerRuns.RemovedNamed | src/framework/ipc/ps/nsfw_fd_timer.c:106-131 | a timer is removed only by a request that names its info |
| TimerOrder.CallOrder | src/framework/ipc/ps/nsfw_fd_timer.c:149-176 | in every run the callbacks of one call come in the order of registration |
| Timers.Conserved | src/framework/ipc/ps/nsfw_fd_timer.c:64-177 | after every run each timer info is in the pool or in the list of timers, never in both and never twice |
| Timers.LostIff | src/framework/ipc/ps/nsfw_fd_timer.c:164-176 | in every run a registration is lost if and only if some callback ends with its own info registered again |
| Timers.OwnRemovalLost | src/framework/ipc/ps/nsfw_fd_timer.c:164-176 | with every pool there is a run in which a timer is lost: its callback removes its own timer and registers until the info comes round |
| Timers.NoOwnRemoval | src/framework/ipc/ps/nsfw_fd_timer.c:164-176 | a callback that does not remove its own timer does not get the info back |
| Timers.OwnRemoval | src/framework/ipc/ps/nsfw_fd_timer.c:164-176 | one that removes it and then registers once more than there are free infos always does |
| Timers.RunInv | src/framework/ipc/ps/nsfw_fd_timer.c:64-177 | every run keeps the invariant: time left is due time less clock, a waiting timer is listed, and nothing is left in the second list |
| Timers.SweepInv | src/framework/ipc/ps/nsfw_fd_timer.c:149-162 | the walk moves exactly the timers whose due time is reached, none of them reached before |
| Timers.CallbackInv | src/framework/ipc/ps/nsfw_fd_timer.c:164-176 | a callback with any registrations and removals keeps the invariant and shortens the second list |
| Timers.TimerModule.RegTimer | src/framework/ipc/ps/nsfw_fd_timer.c:64-94 | takes the first info of the pool, or fails on an empty pool |
| Timers.TimerModule.RmvTimer | src/framework/ipc/ps/nsfw_fd_timer.c:106-131 | takes a used info out of its list into the pool; a second removal changes nothing |
| Timers.TimerModule.SweepTimers | src/framework/ipc/ps/nsfw_fd_timer.c:149-162 | on the list that shrinks under the walk: the timers that go on lose the ticks and keep their order, the others are moved in order |
| Timers.TimerModule.TimerExp | src/framework/ipc/ps/nsfw_fd_timer.c:142-177 | the tick call of the state machine, with a second list that is empty before and after |
| RouteList.RouteTable.Insert | src/nSocket/nstack_rd/nstack_rd_ip.c:60-134 | on the linked nodes: the list of routes becomes the one of the insertion function, nodes and links stay consistent and in descending mask length; without memory nothing changes |
| RouteList.RouteTable.Find | src/nSocket/nstack_rd/nstack_rd_ip.c:140-171 | the first route in the list that matches, which is one that shares all bits of its prefix with the address, of the longest such prefix; none only if no route shares its prefix |
| RouteList.RouteTable.Age | src/nSocket/nstack_rd/nstack_rd_ip.c:182-235 | exactly the routes without time left are removed and freed, the others lose one and keep their order, and no freed node is read |
| RouteList.RouteTable.Remove | src/framework/common/data_struct/list.c:79-101 | the node is unlinked and freed, the others keep their links and order |
| RouteList.RouteTable.AddBefore | src/framework/common/data_struct/list.c:111-117 | the new node is linked in front of the given one, wherever that is |
| RouteList.RouteTable.AddLast | src/framework/common/data_struct/list.c:127-152 | the new node is linked at the end, or as the only one |
| RouteList.LongestMatch | src/nSocket/nstack_rd/nstack_rd_ip.c:140-171 | in a descending list the first match is a longest match, and there is none exactly when no route matches |
| RouteList.MatchesBits | src/framework/include/nstack_rd_data.h:78 | for 32-bit addresses a route matches if and only if the first mask-length bits of both addresses agree, bit by bit |
| RouteList.MaskClears | src/framework/include/nstack_rd_data.h:78 | a masked address has the first bits of the address and zeros behind them |
| RouteList.LookupLongest | src/nSocket/nstack_rd/nstack_rd_ip.c:140-171 | in a descending list the lookup answers with the longest prefix that the address has |
| RouteList.AbsorbedBits | src/nSocket/nstack_rd/nstack_rd_ip.c:107-127 | a route is dropped for another exactly when all bits of that one's prefix are zero |
| RouteList.RunRoutes | src/nSocket/nstack_rd/nstack_rd_ip.c:60-235 | after every sequence of insertions and ageings the list is in descending mask length |
| RouteList.RunLongest | src/nSocket/nstack_rd/nstack_rd_ip.c:60-235 | after every such sequence, if any route in the list matches, the lookup finds one with the longest mask of those |
| RouteList.InsertedOk | src/nSocket/nstack_rd/nstack_rd_ip.c:60-134 | insertion keeps the list in descending mask length |
| RouteList.InsertedLookup | src/nSocket/nstack_rd/nstack_rd_ip.c:60-134 | for every address: a route that was added answers if it matches and no longer one does, and otherwise the answer is the old one |
| RouteList.InsertedAnswers | src/nSocket/nstack_rd/nstack_rd_ip.c:107-127 | when no longer route matches, the entry written answers for the address of the new route if and only if the route was added or the entry it was dropped for matches |
| RouteList.SamePrefixBits | src/framework/include/nstack_rd_data.h:78 | two routes have the same prefix if and only if their masks are equally long and the bits under them agree |
| RouteList.InPlaceIff | src/nSocket/nstack_rd/nstack_rd_ip.c:55-134 | the insertion updates exactly one entry of an equal prefix, or adds the route when there is none, if and only if the stated condition on the entry it goes before holds |
| RouteList.InPlaceSimple | src/nSocket/nstack_rd/nstack_rd_ip.c:55-134 | the same when no entry already has stack and age of the new one: it must be absorbed by an entry of its own prefix, or added to a list without it |
| RouteList.SamePrefixTwice | src/nSocket/nstack_rd/nstack_rd_ip.c:55-134 | a second route for a prefix that is listed beside the first |
| RouteList.ZeroPrefixAbsorbs | src/nSocket/nstack_rd/nstack_rd_ip.c:107-127 | a route that is lost to one with a zero prefix |
| RouteList.AgedOk | src/nSocket/nstack_rd/nstack_rd_ip.c:182-235 | ageing keeps the list in descending mask length |
| RouteList.AgedRoutes | src/nSocket/nstack_rd/nstack_rd_ip.c:182-235 | a route is left exactly when it had time left, with one less |

## Left out

- The socket interface apart from the references, close and release of one descriptor: it forwards to stacks that are not visible.
- Reuse of a descriptor slot after its release, and the counters that `fork` resets: the protocol is about one life of a descriptor.
- Ring implementations, shared memory mapping, files, JSON, DPDK arguments, logging, the timer descriptor and test programs: foreign calls or easy members.
- The lock around the segment, attaching to a segment, and the address check before an operation: the segment is used by one caller at a time, with addresses of live blocks.
- Sizes near the limits of `int` and `size_t` in segments and snapshots, and failing `malloc` other than for a route: taken as preconditions or left out.
- The padding bytes of a stored header: they keep what the buffer held, and nothing is said about them.
- `MEMCPY_S` outside of snapshots, which has room by construction; in a snapshot both the plain and the checked form are covered, the checked one clearing the member when it refuses.
- A registered descriptor table that contains itself: storing would not end; restoring ends for every table.
- Names longer than the name fields: a module or dependency name is any string.
- An init function that adds or removes modules while the walk is under way.
- `nsep_init_epitem` failing inside an allocation, and the pools other than the one of epitems: they differ in the field that names the holder.
- LeakScanner.StepInv: the check of one item is one step, a check that comes after more than `delay` further items were put back since the counters were read is not part of the model, and a process puts an item back that was checked after it was unmarked only within `stall` of them; the pool has room for many thousands of both.
- Timers.TimerModule.TimerExp: the two linked lists are sequences, one thread uses the timers, a callback that is NULL is one that does nothing, and tick counts stay below 2^63.
- Sha256.HashPieces: messages of 2^64 bytes or more are excluded; FIPS 180-4 has no digest for 2^61 and more.
- EpollTree.Eventpoll.Unlink: the reset of the event mask and of the link in the ready list are not modelled, since nothing here reads them.
- SnapshotRestore.Target.Restore: the debug line at fw_snapshot.c:404-407 reads four bytes behind the header of a plain member before the length is compared, which leaves the length given if and only if fewer than four bytes follow that header; logging is not part of the model.
- RouteList.RouteTable.Insert: mask lengths are 1 to 32; for 0 the shift of the mask is undefined in C.
- The in-order walk over the tree beyond its first node, and the closing of an epoll descriptor, which only empties the tree.
