# Verified models of the dumbnose data structures, access control lists and thread primitives

Four parts of the library are modelled and proved.

**Counted 2-3-4 tree** (`Tree234*.dfy`). `Node` objects hold four kid pointers, four counts, three element slots and
a parent pointer, and are overwritten in place. A ghost `Shape` says which tree the nodes form; `Rep` ties every field
of every node to it, and a ghost path (`Ctx`) describes everything around the node a loop stands on. `Valid` says:
nodes are not shared, all leaves are on one level, an internal node has one kid more than it has elements, unused slots
are empty, counts and parent pointers are right, and a sorted tree is strictly sorted. Insertion with all its splits,
deletion with all its rotations and merges, both searches, and whole runs against the slow array are proved for every
tree. The comparison function is a parameter that must be a total order up to equivalence.

**Block-store B-tree** (`Wrappers`, `Blocks`, `Btree*.dfy`, `Arithmetic`). `Node` objects live in the blocks of an `MmapFile` and
refer to each other by block number, 0 being null. The invariant is a conjunction of conditions on single blocks; it
uses, for each block, the open interval of keys it answers for and its height above the leaves, which the file does not
record. Everything global is proved from it: the search agrees with the map, no key is twice in the tree, the walk over
the tree is sorted, and the depth is logarithmic. Keys and records are integers; only `<` and `==` are used on keys.

**Access control lists** (`Acl*.dfy`, `SidOrder.dfy`). The Shell sort over owning pointers that puts entries in the
preferred order, the byte images of plain and object entries ([MS-DTYP] sections 2.4.2.2 and 2.4.4) with their parser,
and the order of security identifiers. Bytes, words and lengths are bounded as in the program.

**Work queues and barrier** (`Threads.dfy`, `ThreadPool.dfy`, `JobQueue.dfy`, `ThreadBarrier.dfy`). State machines whose atomic steps
are taken by any number of threads in any order. Every theorem is about all runs from the initial state; what the
threads give to and get from the operations is read off the events of the run, not off recorded fields.

Where a promise of the code does not hold on all inputs, the input and the exact condition are proved: `AddPos234`
(an index that is too large), `AllocateBlock` (the file length outgrows its low word), `AuditRoundTrip` and
`CopyIsFaithful` (marks and null GUIDs), `NoneStranded` in both queues (a release that finds the semaphore full),
`ExactIff` (a pulse between giving up the lock and waiting).

Code and comments disagree in two places, and the model follows the code. tree234.h:57-63 lets `addpos234` fail on any
index out of range, and the comment at tree234.c:400 says that the internal function checks the upper bound. It does
so only at an internal root and only beyond its last kid slot, used or not: an empty tree and a leaf put the element
at the end, and the other roots lose their last subtree. The comment at thread_barrier.hpp:45 takes signalling and
waiting for one step; the barrier is modelled both ways.

To check the proofs: `dafny verify dfyconfig.toml`.

## Model

| member | source | states |
|---|---|---|
| Tree234Base.Tree234.constructor | lib/dumbnose/btree/tree234.c:62-68 | a new tree is valid and stands for the empty list |
| Tree234Base.Count234 | lib/dumbnose/btree/tree234.c:90-108 | the counts of the root add up to the length of the list |
| Tree234Base.LadderIs | lib/dumbnose/btree/tree234.c:415-432 | the chain of count comparisons picks the kid or element that holds the index, with the index left over in that kid |
| Tree234Base.Index234 | lib/dumbnose/btree/tree234.c:407-437 | the i-th element of the list for an index in range, NULL otherwise |
| Tree234Search.Descend | lib/dumbnose/btree/tree234.c:476-520 | the descent ends at an element that compares equal, or at the rank: everything before compares smaller, everything after greater |
| Tree234Search.SortedIsMonotone | lib/dumbnose/btree/tree234.h:99-114 | searching a sorted tree with its own comparison meets the condition the search needs, for every element |
| Tree234Search.Decide | lib/dumbnose/btree/tree234.c:525-545 | an element that compares equal at an index fixes the sign of the comparison everywhere else |
| Tree234Search.FindRelPos234 | lib/dumbnose/btree/tree234.c:446-549 | for EQ, LT, LE, GT and GE, by the signs of `cmp(e, q[j])` themselves: the equal element, the last one below, the first one above, or NULL when every element is on the other side, for every comparison that is monotone over the list; NULL sought is the minimum or maximum |
| Tree234Nodes.RecountUpwards | lib/dumbnose/btree/tree234.c:357-366 | when only the counts above a node are wrong, recomputing them up to the root gives a well-formed tree around the node's new subtree; at the root there is nothing to recompute |
| Tree234Nodes.ChildNumberIs | lib/dumbnose/btree/tree234.c:343-347 | the test of kid pointers finds the one place where the node hangs in its parent |
| Tree234Widen.WidenTwo | lib/dumbnose/btree/tree234.c:218-239 | either position of a 2-node: the fields become those of the node with the element and its two subtrees put in |
| Tree234Widen.WidenThree | lib/dumbnose/btree/tree234.c:240-271 | the same for each of the three positions of a 3-node |
| Tree234Insert.InsertHere | lib/dumbnose/btree/tree234.c:218-271 | where there is room, the whole list gets the pending element at the pending place, and only counts above are left to fix |
| Tree234Insert.SplitHere | lib/dumbnose/btree/tree234.c:272-348 | a full node becomes a 3-node and a 2-node with an element between them; the same insertion is pending one level up, and the list it will give is unchanged |
| Tree234Insert.GrowRoot | lib/dumbnose/btree/tree234.c:367-384 | when the root has split, a new root over the halves is a well-formed tree one level higher |
| Tree234Insert.Climb | lib/dumbnose/btree/tree234.c:207-386 | from any place below the leaves, any chain of splits ends in a well-formed tree that lists the element at that place; at the last slot of an internal root with room, the same code replaces the last subtree |
| Tree234Insert.FindPlace | lib/dumbnose/btree/tree234.c:136-202 | the descent finds an equal element, or ends below a leaf at the index or at the rank of the element; an index that is too large is rejected, or leaves the root by a slot without a kid |
| Tree234Insert.IndexTurnBeyond | lib/dumbnose/btree/tree234.c:146-182 | for an index that is too large, the root rejects it if and only if it is internal and the index is beyond the count by more than its unused kid slots; otherwise the turn is to an unused slot |
| Tree234Insert.RankInRange | lib/dumbnose/btree/tree234.c:117-387 | inserting at the rank keeps a list strictly sorted |
| Tree234Insert.Add234Internal | lib/dumbnose/btree/tree234.c:117-387 | the tree stays well-formed; the list gets the element at the index or at its rank, or is unchanged when an equal element is returned; for an index that is too large, exactly which of the three things happens |
| Tree234Insert.Add234 | lib/dumbnose/btree/tree234.c:389-394 | in a sorted tree, the element goes in after exactly the elements with `cmp(e, q[j]) > 0` and before those with `cmp(e, q[j]) < 0`, and the list has `cmp(q[i], q[j]) < 0` for all i < j; or an equal element is returned and nothing changes; an unsorted tree is left alone |
| Tree234Insert.AddPos234 | lib/dumbnose/btree/tree234.c:395-401 | in an unsorted tree, the list s becomes s[..i] + [e] + s[i..]; a negative index or a sorted tree is refused; an index that is too large is refused with nothing changed if and only if the root rejects it, goes to the end of an empty tree or a leaf, and otherwise costs the last subtree and the tree its form |
| Tree234Insert.RejectsIs | lib/dumbnose/btree/tree234.h:57-63 | whether the header's promise holds for an index that is too large, read off the fields of the root |
| Tree234Insert.EmptyTakesAnyIndex | lib/dumbnose/btree/tree234.c:123-134 | an empty tree takes every index |
| Tree234Insert.ElementsAreLost | lib/dumbnose/btree/tree234.c:229-234 | four elements and a fifth at index 5: fewer than five remain, in what is no tree |
| Tree234Cases.Case3aLeft | lib/dumbnose/btree/tree234.c:608-645 | moving a subtree from the left neighbour keeps the list and the place sought, and gives the kid two elements |
| Tree234Cases.Case3aRight | lib/dumbnose/btree/tree234.c:646-675 | the mirror image |
| Tree234Cases.Case3b | lib/dumbnose/btree/tree234.c:676-737 | two small kids melt around the element between them into one 4-node; the list is the same, and the node above loses an element |
| Tree234Delete.MakeRoom | lib/dumbnose/btree/tree234.c:605-748 | whatever case applies, the kid to descend to has two elements and the place sought is the same; the node is emptied only if it had one element |
| Tree234Delete.DescendStep | lib/dumbnose/btree/tree234.c:605-750 | one step down keeps that the node stood on is the root or has two elements, and lowers the height, also when the root is replaced |
| Tree234Delete.Seek | lib/dumbnose/btree/tree234.c:574-756 | the inner loop ends at an element, never by running out of nodes, so that the exit with ei == -1 is not reached |
| Tree234Delete.Case1 | lib/dumbnose/btree/tree234.c:775-798 | in a leaf with an element to spare, the element goes and all counts above are lowered: a well-formed tree without it |
| Tree234Delete.Case2a | lib/dumbnose/btree/tree234.c:799-821 | the element is overwritten with its predecessor, and the place sought is now the predecessor's, one level down |
| Tree234Delete.Case2b | lib/dumbnose/btree/tree234.c:822-836 | the mirror image with the successor |
| Tree234Delete.Case2cStep | lib/dumbnose/btree/tree234.c:837-888 | both neighbours melt around the element, which stays the place sought; an emptied root is replaced |
| Tree234Delete.DelPos234Internal | lib/dumbnose/btree/tree234.c:564-890 | the element at the index is returned and exactly it is removed from the list; the tree stays well-formed, without new nodes; all loops end |
| Tree234Delete.DelPos234 | lib/dumbnose/btree/tree234.c:891-895 | the same for every index, NULL and no change out of range; a sorted tree stays sorted |
| Tree234Delete.Del234 | lib/dumbnose/btree/tree234.c:896-901 | the element that compares equal is removed and returned; NULL and no change if there is none |
| Tree234Runs.FirstDecides | lib/dumbnose/btree/tree234.c:1107-1148 | the scan of the slow array finds the equal element if there is one, and else the rank at which the tree inserts |
| Tree234Runs.Perform | lib/dumbnose/btree/tree234.c:905-926 | every operation on every tree gives the result and the list it gives on the array |
| Tree234Runs.Run | lib/dumbnose/btree/tree234.c:905-926 | so does every run of operations from a new tree |
| Tree234Runs.PositionsUndo | lib/dumbnose/btree/tree234.c:395-401 | deleting at an index undoes inserting there, and the other way round |
| Tree234Runs.SortedUndo | lib/dumbnose/btree/tree234.c:389-394 | deleting an element undoes adding it; adding it twice is adding it once |
| Tree234Runs.VisitForwards | lib/dumbnose/btree/tree234.h:118-120 | the loop over successors visits every element once, in order |
| Tree234Runs.VisitBackwards | lib/dumbnose/btree/tree234.h:122-124 | the loop over predecessors visits every element once, in reverse |
| Tree234Runs.HeightBounds | lib/dumbnose/btree/tree234.c:272-342 | a tree of height h holds between 2^h - 1 and 4^h - 1 elements |
| BtreeNode.MmapFile.AllocateBlock | lib/dumbnose/mmap_file.hpp:42-54 | the number is fresh and not null if and only if the length still fits the low word; then the new block is zero, and the count is right afterwards if and only if the new length fits; otherwise no block is added and the number is that of an existing one |
| BtreeNode.MmapFile.OutgrowsTheWord | lib/dumbnose/mmap_file.hpp:42-45 | a file that has grown block by block to the length of the word hands out the null number |
| BtreeNode.MmapFile.GetReference | lib/dumbnose/mmap_file.hpp:56-64 | the block of every number below the count, an error for every other |
| BtreeNode.Node.FindPosition | lib/dumbnose/btree/impl_/node.hpp:384-393 | the position the linear search gives a key that is not in the node |
| BtreeNode.Node.FreeUp | lib/dumbnose/btree/impl_/node.hpp:396-401 | the entries from the position on move one to the right, no other moves |
| BtreeNode.Node.FindNodePtr | lib/dumbnose/btree/impl_/node.hpp:235-244 | a slot that holds the child; the exception if and only if no slot does |
| BtreeNode.Node.InsertIntoNode | lib/dumbnose/btree/impl_/node.hpp:214-233 | the new file exactly, with both exceptions: full node, child not found |
| BtreeNode.Node.FindRoot | lib/dumbnose/btree/impl_/node.hpp:74-79 | from every node of the file, the parent numbers lead to the one root |
| BtreeNode.Node.FindRecordAndNode | lib/dumbnose/btree/impl_/node.hpp:341-380 | the halving search stays in bounds, ends, and gives the record and the node that the linear search gives |
| BtreeOrder.LinearMeans | lib/dumbnose/btree/impl_/node.hpp:345-354 | in a sorted node, the linear search finds the key, or the slot that all smaller keys precede and all greater follow |
| BtreeOrder.Passes | lib/dumbnose/btree/impl_/node.hpp:341-380 | a search from the root passes every node whose interval holds the key |
| BtreeOrder.FindAgrees | lib/dumbnose/btree/impl_/node.hpp:65-69 | a search returns what the map holds; on a miss the location is the one leaf whose interval holds the key |
| BtreeOrder.KeysAreUnique | lib/dumbnose/btree/impl_/node.hpp:82-101 | no key is stored in two places |
| BtreeOrder.LevelsArePartitioned | lib/dumbnose/btree/impl_/node.hpp:309-336 | on one level, the intervals do not overlap |
| BtreeNode.Node.SplitNode | lib/dumbnose/btree/impl_/node.hpp:309-336 | the file afterwards: left half in place, right half in the new last block, exactly the children that moved know their new parent, the middle entry handed out |
| BtreeSplit.SplitStored | lib/dumbnose/btree/impl_/node.hpp:309-336 | a split loses and invents no entry but the middle one |
| BtreeSplit.JoinKeeps | lib/dumbnose/btree/impl_/node.hpp:276-286 | a split below a parent with room keeps the whole invariant: order and intervals, one depth, fill, children, parents |
| BtreeSplit.GrowKeeps | lib/dumbnose/btree/impl_/node.hpp:289-306 | a split of the root keeps it, one level higher |
| BtreeSplit.NewParentHasRoom | lib/dumbnose/btree/impl_/node.hpp:255-263 | after room was made in the parent, whichever half is now the parent has room, so the exceptions for a full node and a missing child are not reached |
| BtreeNode.Node.SplitRoot | lib/dumbnose/btree/impl_/node.hpp:289-306 | the invariant and the stored map, with a new root |
| BtreeNode.Node.MakeRoom | lib/dumbnose/btree/impl_/node.hpp:255-269 | true if and only if the node was full; then it and a new neighbour share its interval and both have room; invariant and map are kept, nodes below change at most their parent, and exactly one block is used for each full node on the way up and one more if the root splits |
| BtreeSplit.RoomForKey | lib/dumbnose/btree/impl_/node.hpp:92-95 | searching again from the new root lands on a leaf that is not full |
| BtreeSplit.LeafKeeps | lib/dumbnose/btree/impl_/node.hpp:97-100 | an entry put in the leaf responsible for its key keeps the invariant |
| BtreeSplit.LeafStores | lib/dumbnose/btree/impl_/node.hpp:97-100 | and the map becomes map[key := record] |
| BtreeNode.Node.Insert | lib/dumbnose/btree/impl_/node.hpp:82-101 | from any node: a present key is the exception and no change; an absent one is added to the map, the invariant kept, no other exception; and exactly how many blocks it takes |
| BtreeNode.Node.Depth | lib/dumbnose/btree/impl_/node.hpp:127-132 | the number of levels |
| BtreeNode.Node.Validate | lib/dumbnose/btree/impl_/node.hpp:134-165 | on any file whose links, where they stay in the file, lead downwards, the check ends normally if and only if every node it comes to is in the file, has ascending keys, and has only children that are in the file, name it as their parent and have their keys between those beside them; otherwise it throws |
| BtreeCheck.ChecksIff | lib/dumbnose/btree/impl_/node.hpp:134-165 | the recursive condition is that condition on the blocks, for every node that a path of slots leads to |
| BtreeCheck.InvChecks | lib/dumbnose/btree/impl_/node.hpp:134-165 | a well-formed tree passes the check from every node |
| BtreeWalk.WalkOrdered | lib/dumbnose/btree/impl_/node.hpp:103-120 | in-order, the keys are strictly increasing across all levels |
| BtreeWalk.WalkListsTheMap | lib/dumbnose/btree/impl_/node.hpp:103-120 | the walk meets exactly the entries of the map, each once |
| BtreeWalk.DepthIsLogarithmic | lib/dumbnose/btree/impl_/node.hpp:127-132 | for n entries to a node and h levels below the root, at least 2(n - middle)^h - 1 keys when h > 0, at most (n + 1)^(h + 1) - 1; for n >= 5 the base is at least 2 |
| Btrees.Btree.constructor | lib/dumbnose/btree/btree.hpp:59-71 | a new file gets an empty tree; a file with a tree is reopened from block 1 with its root and its map |
| Btrees.Btree.Find | lib/dumbnose/btree/btree.hpp:75-78 | the record the map holds, or none |
| Btrees.Btree.Insert | lib/dumbnose/btree/btree.hpp:80-84 | map[key := record], or the exception and nothing changed; the root is found again; exactly how many blocks it takes, none for a present key or a leaf with room |
| Btrees.Btree.Depth | lib/dumbnose/btree/btree.hpp:91-94 | the number of levels |
| Btrees.Btree.Validate | lib/dumbnose/btree/btree.hpp:97-100 | never throws |
| AclOrder.OrderIsByRank | lib/dumbnose/security/test/wil_security/wilsecurity.hpp:2541-2579 | the comparison is a total preorder: it compares eight ranks, read off the bit 0x10 of the flags, `allow`, and whether it is an object entry |
| AclOrder.PrepareAcesForAcl | lib/dumbnose/security/test/wil_security/wilsecurity.hpp:2449-2473 | for every length, the list becomes a permutation of itself in which no entry with the bit 0x10 stands before one without it, with that equal no allowed before a denied one, with both equal no object before a plain one; the last gap is 1 |
| AclOrder.Pass | lib/dumbnose/security/test/wil_security/wilsecurity.hpp:2461-2470 | a pass puts entries one gap apart in order, everywhere |
| AclOrder.Place | lib/dumbnose/security/test/wil_security/wilsecurity.hpp:2463-2469 | one more entry takes its place among those a gap apart; the list is a permutation of what it was and no slot is left empty |
| AclOrder.HoldMoves | lib/dumbnose/security/test/wil_security/wilsecurity.hpp:2465-2466 | while an entry is on its way, exactly one slot is empty, the one written next, and the list with the entry put there has what it had; a move keeps this |
| AclBytes.GetAce | lib/dumbnose/security/test/wil_security/wilsecurity.hpp:2675-2733 | the buffer of length() bytes is filled exactly with the image of the entry; in numbers: type 0, 1, 2, 5, 6 or 7, the marks 64 and 128, its own length and the mask as sums of bytes, presence bits 1 and 2, where each GUID and the SID with its count and sub-authorities stand |
| AclBytes.HeaderReadsBack | lib/dumbnose/security/test/wil_security/wilsecurity.hpp:2695-2730 | where each field of a written entry lies, by offset: type, flags, length, mask, what is between, and the SID at the end |
| AclCopy.TypesReadBack | lib/dumbnose/security/test/wil_security/wilsecurity.hpp:2396-2423 | for all four choices of GUIDs, the offsets computed backwards from the largest layout find each GUID that is there and the start of the SID |
| AclBytes.SidReadsBack | lib/dumbnose/security/test/wil_security/wilsecurity.hpp:1501-1524 | a valid SID of any length that stands in a buffer reads back |
| AclBytes.ReadSidIs | lib/dumbnose/security/test/wil_security/wilsecurity.hpp:1501-1524 | for any bytes: a SID is read if and only if its revision 1, its count of at most 15, its authority and its sub-authorities, byte by byte, stand there |
| AclCopy.DecodeReads | lib/dumbnose/security/test/wil_security/wilsecurity.hpp:2377-2437 | for any bytes: reading gives an entry if and only if the bytes are laid out as that entry, in the same numbers, and its type is one the list holds; any other type is skipped |
| AclCopy.AccessRoundTrip | lib/dumbnose/security/test/wil_security/wilsecurity.hpp:2377-2434 | a written access entry, plain or object, with any choice of GUIDs, reads back as it was |
| AclCopy.AuditRoundTrip | lib/dumbnose/security/test/wil_security/wilsecurity.hpp:3000-3036 | a written audit entry reads back as it was if and only if its flags carry no mark that it does not ask for |
| AclCopy.AuditTripLoses | lib/dumbnose/security/test/wil_security/wilsecurity.hpp:3221-3229 | with such a mark, an object entry loses it and a plain entry starts to ask for it |
| AclCopy.CopyMeans | lib/dumbnose/security/test/wil_security/wilsecurity.hpp:2281-2348 | a copy by way of the accessors has every field as it was, but a GUID of sixteen zeros is gone and the marks asked for are those of the flags |
| AclCopy.CopyIsFaithful | lib/dumbnose/security/test/wil_security/wilsecurity.hpp:2281-2348 | copying from list to list keeps an entry if and only if no GUID in it is the null GUID and no mark is unasked |
| AclCopy.CopyAcl | lib/dumbnose/security/test/wil_security/wilsecurity.hpp:2350-2442 | the loop reads entry after entry, skips other types, stops at a bad SID |
| AclCopy.ListRoundTrip | lib/dumbnose/security/test/wil_security/wilsecurity.hpp:2350-2442 | a written discretionary list of any length reads back as it was |
| AclCopy.AuditListTrip | lib/dumbnose/security/test/wil_security/wilsecurity.hpp:2958-3045 | a written system list reads back with the marks that were written |
| AclCopy.TotalOfPermutation | lib/dumbnose/security/test/wil_security/wilsecurity.hpp:1931-1944 | the length added up before the list is put in order is the length needed after |
| AclCopy.GetPacl | lib/dumbnose/security/test/wil_security/wilsecurity.hpp:1927-1975 | the buffer is filled exactly with the entries in the preferred order, and reads back as that list |
| SidOrder.OperatorLess | lib/dumbnose/security/test/wil_security/wilsecurity.hpp:1589-1626 | true exactly when the digits are lexicographically smaller |
| SidOrder.LessByFields | lib/dumbnose/security/test/wil_security/wilsecurity.hpp:1589-1626 | the first authority byte that differs decides, else the first sub-authority that differs, else the shorter is the smaller |
| SidOrder.StrictTotalOrder | lib/dumbnose/security/test/wil_security/wilsecurity.hpp:1577-1626 | transitive, never both ways, neither way exactly for equal authority and sub-authorities |
| SidOrder.PrefixIsLess | lib/dumbnose/security/test/wil_security/wilsecurity.hpp:1608-1613 | with one authority, a proper prefix is smaller |
| ThreadPool.InvStep | lib/dumbnose/thread_pool.hpp:28-61 | every step of every thread keeps the count of queued items against tokens, holders, pushers and failed releases, the order, and the lock |
| ThreadPool.Safety | lib/dumbnose/thread_pool.hpp:28-61 | in every run: tokens and their holders never exceed the queue, the retry on an empty queue is not taken, items come out in the order they went in |
| ThreadPool.CallsAreWhole | lib/dumbnose/thread_pool.hpp:28-61 | in every run, what each thread has done is whole calls, one after another, from first step to last, and a part of one that says where it is; the loop is left at its first turn |
| ThreadPool.EndToEnd | lib/dumbnose/thread_pool.hpp:28-61 | in every run, the items given to the calls that have pushed are, in order, those the calls have returned with, then the one in hand, then the queue; whoever is about to return with an item has the lock, and it is the last one taken out |
| ThreadPool.ToldToStop | lib/dumbnose/thread_pool.hpp:26-35 | the event is set if and only if release_threads was called; no call returns without an item before that, and none takes a token after |
| ThreadPool.NobodyWaitsInVain | lib/dumbnose/thread_pool.hpp:28-61 | when no thread inside a call can go on, all of those wait for a token, the pool has not been told to stop, and if every release could be counted and any thread waits, the queue is empty |
| ThreadPool.NoneStranded | lib/dumbnose/thread_pool.hpp:54-61 | every queued item has its token, its holder or its pusher if and only if at every release of the run the semaphore was below its largest count |
| ThreadPool.BoundedQueueStrandsNone | lib/dumbnose/thread_pool.hpp:54-61 | so it has whenever there were never more items queued than the semaphore can count |
| ThreadPool.NoNewHolders | lib/dumbnose/thread_pool.hpp:26-35 | after release_threads no thread comes to hold a token |
| JobQueue.Safety | lib/dumbnose/job_queue.hpp:16-31 | no run pops an empty list; tokens and holders never exceed the jobs; first in, first out |
| JobQueue.CallsAreWhole | lib/dumbnose/job_queue.hpp:16-31 | in every run, what each thread has done is whole calls, and a part of one that says where it is |
| JobQueue.EndToEnd | lib/dumbnose/job_queue.hpp:16-31 | in every run, the jobs given to the calls that have pushed are, in order, those the calls have returned with, then the one in hand, then the list; whoever is about to return with a job has the lock, and it is the last one taken out |
| JobQueue.NobodyWaitsInVain | lib/dumbnose/job_queue.hpp:16-31 | when no thread inside a call can go on, all of those wait for a token, and if every release could be counted and any thread waits, the list is empty |
| JobQueue.NoneStranded | lib/dumbnose/job_queue.hpp:14-21 | every queued job has its token, its holder or the thread that adds it if and only if at every release of the run the semaphore was below 1000 |
| JobQueue.BoundedQueueStrandsNone | lib/dumbnose/job_queue.hpp:14-21 | so it has whenever there were never more than 1000 jobs queued |
| JobQueue.JobsAreStranded | lib/dumbnose/semaphore.hpp:41-45 | when more than 1000 jobs are added before any is taken, the excess stays queued and whoever asks for it waits |
| ThreadBarrier.Safety | lib/dumbnose/thread_barrier.hpp:31-49 | in every run with a threshold of at least 1, nobody passes before the threshold of its round has arrived, and the count is below the threshold whenever the lock is free |
| ThreadBarrier.WhoMoves | lib/dumbnose/thread_barrier.hpp:31-49 | a pulse lets every waiting thread return from wait(); otherwise a step moves only the thread that takes it |
| ThreadBarrier.CallsAreWhole | lib/dumbnose/thread_barrier.hpp:31-49 | in every run, what each thread has done is whole calls of wait(), each either completing a round or waiting for the pulse of another thread, and a part of one that says where it is |
| ThreadBarrier.EveryCallCounts | lib/dumbnose/thread_barrier.hpp:31-49 | in every run, the calls of wait() are those on their way to be counted, those counted and held, and those that the pulses have let pass |
| ThreadBarrier.PulsesAreOnTime | lib/dumbnose/thread_barrier.hpp:33-41 | in every run, atomic or not, a pulse comes when exactly the calls of one more round have been counted |
| ThreadBarrier.NobodyWaitsInVain | lib/dumbnose/thread_barrier.hpp:31-49 | when no thread inside can go on by itself, all of those wait for the pulse; where rounds are exact they are fewer than the threshold, as many as the calls exceed the full rounds by |
| ThreadBarrier.ExactIff | lib/dumbnose/thread_barrier.hpp:31-49 | every pulse of every run lets exactly the threshold pass if and only if giving up the lock and waiting are one step or the threshold is 1 |
| ThreadBarrier.Exactness | lib/dumbnose/thread_barrier.hpp:36-47 | of one run: every pulse lets exactly the threshold pass if and only if no pulse happens while a thread is between giving up the lock and waiting |
| ThreadBarrier.AtomicRoundsAreExact | lib/dumbnose/thread_barrier.hpp:45-46 | so every round is exact when the two are one step, as the comment says, and those who passed are the full rounds |
| ThreadBarrier.PulseIsMissed | lib/dumbnose/thread_barrier.hpp:41-46 | when they are two steps, for every threshold above 1: all threads of a round arrive, one passes, and the others are still to wait |

## Left out

- Tree234Insert.AddPos234: at a root that is a leaf, an index above 3 makes the code read beyond the kid pointers; that is not modelled.
- Tree234Search.FindRelPos234: an index of None stands for an integer the function does not write; with a NULL element only LT and GT are allowed, as the assertion in the source demands.
- Tree234Delete.DelPos234Internal: nodes leave the tree without being freed; the model has no freed memory.
- Tree234Nodes.RecountUpwards: counts are unbounded integers, so a tree of more than 2^31 - 1 elements is not modelled.
- The arrays inside a 2-3-4 node and inside a B-tree node are sequence-valued fields of the node object, since they are part of it and never aliased.
- find234, findrel234 and findpos234 only fix parameters of findrelpos234; the comparison function is the tree's own in runs.
- freetree234, logging, and the test driver of tree234.c; its slow array is the reference in `Tree234Runs`.
- BtreeNode.Node.Insert: requires that the file can hold the blocks the insertion takes; without them the block count is wrong afterwards, as `AllocateBlock` says.
- BtreeNode.Node.MakeRoom: the check after each split in debug builds is not called; `InvChecks` says that it would pass.
- BtreeNode.Node.Validate: requires that child numbers do not lead round in a circle, in which case the recursion does not end; it compares neighbouring levels only, so it is weaker than the invariant.
- BtreeNode.Node.InsertOnEnd: requires a free entry; the check in the source would let a full node through.
- BtreeNode.MmapFile.AllocateBlock: when the length does not fit, the source may also throw because the block is mapped already; the cache of mapped blocks is not modelled.
- BtreeNode.MmapFile.GetReference: the cache of mapped blocks, mapping and unmapping, the operating system's errors and the lock around them are not modelled.
- Fewer than three entries to a B-tree node, for which the split position is out of range, and the compile-time computation of that number.
- output() and operator<< of the B-tree; the order of their traversal is `BtreeWalk.Walk`.
- AclBytes.GetAce: the cached copy of the image and failing allocations are not modelled; the header of the list as a whole is left to the operating system.
- AclCopy.CopyAcl: what the operating system checks of a list is reduced to entries that fit and SIDs that are valid.
- CDacl::RemoveAce leaves the cached list stale; the cache is not modelled.
- The names, domains and string forms of security identifiers, and everything else in wilsecurity.hpp.
- ThreadPool.Safety: the largest count of the semaphore is a parameter; spurious failures of waits, and destruction of the pool while threads use it, are not modelled.
- ThreadBarrier.Safety: abandoned mutexes and barriers shared by name are not modelled; a pulse is taken to wake every waiting thread.
- Fairness and progress of the threads.
- The wrappers for sockets, registry, services, windows, strings and processes in the rest of the library.
