# artorias: trees, timeouts, framing and allocators

A Dafny model of the parts of the repository where state changes in hard-to-follow ways:

1. **The intrusive red-black tree and the timeout pools** (`c/src/rb_tree.c`, `rb_tree.h`, `thread.c`, `thread.h`,
   `mw_worker.c`). Nodes are heap objects with parent, left and right links and a colour. Beside the heap stand two
   ghost values: a tree `t` and a path `k` (a zipper), so that `Plug(k, t)` is the whole tree and one turn of a fix-up
   loop is one move along the path. `Holds(tree, w)` says that the heap spells out `w` exactly: every link, parent link
   and colour, each node once. `IsRB` is the red-black discipline and `Inorder` the order of the nodes.
2. **The incremental Redis parser, the printer and the framing of a connection** (`go/src/redisparser/parser.go`,
   `go/src/dial/redis/wrap.go`, `go/src/protocol/redis/handle.go`). `RespSpec` is the parser as a machine on values, one
   byte a step. `RespParser` is the parser over command objects with its explicit stack, proved to be that machine.
3. **The buddy allocator** (`c/src/mem_buddy.c`). Ghost sets `live` and `split` name the nodes handed out and those
   below which something ever was; the marks are proved to say what these sets say.
4. **The bitmap allocator** (`c/src/mem_slot.c`), against a plain sequence of booleans, bit for bit.
5. **The size-class memory pool** (`c/src/mem_pool.c`, and `binary_search` in `c/src/utils.h`), with free lists through
   the block headers.

| file | holds |
|---|---|
| `Powers.dfy`, `Words.dfy` | powers of two; 32-bit words and the buddy allocator's bit tricks |
| `RbShape.dfy`, `RbColor.dfy` | trees and paths as values; the colour argument of every fix-up step |
| `RbHeap.dfy`, `RbInsert.dfy`, `RbDelete.dfy`, `RbSubtree.dfy` | the tree in the heap and its operations |
| `Pools.dfy`, `Timeouts.dfy`, `Worker.dfy` | timeout pools, the timeout split, the worker's steps and the traversal |
| `RespSpec.dfy`, `RespWire.dfy`, `RespParser.dfy`, `RespConn.dfy` | the machine, the round trip, the parser object, framing |
| `Buddy.dfy`, `Slot.dfy`, `MemPool.dfy` | the three allocators |

`dafny verify dfyconfig.toml` checks everything.

## What the proofs found

* `rb_tree_remove_subtree` uses the sibling of the removed subtree without a test. The timeout call can reach that
  case: two threads, the earlier one below the later one and only the earlier one due, are enough
  (`Timeouts.TwoThreadsFault`). It happens exactly when the first due node of the left edge has no sibling.
* When a thread is due but the root of the pool is not, the tree that is cut off keeps its parent link, so the
  post-order walk that follows does not end with that tree: it enters the pool at a thread that is not due
  (`Worker.WalkEntersPool`). The worker's invariant is proved for the other calls.
* Buddies never coalesce. The merge test compares the children's marks with the parent's own full mark, which they
  cannot hold (`Buddy.NeverMerges`); after one smaller block has come and gone the whole arena is never handed out
  again (`Buddy.Uncoalesced`). What can be handed out is stated exactly (`Buddy.CoversIffWhole`).
* `slot_alloc` does not see a free run that lies strictly inside one byte, so it is first fit exactly from seven units
  on (`Slot.LongRunsFit`, `Slot.ShortRunMissed`).
* The parser never pops an array of no elements, so the printer's output reads back exactly when there is at least one
  argument (`RespWire.RoundTripExactly`). A negative array count panics. A number that does not parse restarts its
  line, because the error is assigned to an inner variable; an unknown type byte starts an ordinary line, because the
  error status is overwritten.

## Model

| member | source | states |
|---|---|---|
| RbColor.InsertRecolor | c/src/rb_tree.c:273-282 | a red uncle: recolouring moves the only red-red edge two levels up and breaks nothing else |
| RbColor.InsertRotate | c/src/rb_tree.c:299-305 | a black uncle: one rotation at the grandparent removes the red-red edge at equal black heights |
| RbColor.DeleteCase1 | c/src/rb_tree.c:7-13 | after the rotation the sibling is black, and the same single black node is missing one level lower |
| RbColor.DeleteCase2 | c/src/rb_tree.c:15-20 | the missing black node is now missing one level higher |
| RbColor.DeleteCase3 | c/src/rb_tree.c:22-30 | the sibling's far child is red afterwards, with the shortage as it was |
| RbColor.DeleteCase4 | c/src/rb_tree.c:32-41 | the whole tree is red-black again |
| RbColor.DeleteSibling | c/src/rb_tree.c:130-147 | the fix-up's untested use of the sibling, and of a red sibling's near child, is safe |
| RbColor.DescentBound | c/src/rb_tree.h:18-28 | every way down an n-node red-black tree has at most 2*log2(n+1) steps |
| RbHeap.RotateLeft | c/src/rb_tree.c:85-123 | the rotation, parent link and root included, keeps the order and the nodes; nothing happens without a right child |
| RbHeap.RotateRight | c/src/rb_tree.c:48-83 | the mirror image, for a node that has a left child |
| RbInsert.Seek | c/src/rb_tree.h:20-26 | the place found lies after every key up to the new one and before every greater one, and `parent` names the node above it |
| RbInsert.Insert | c/src/rb_tree.h:18-28 | the new red leaf stands after every key up to its own and before every greater one; the descent is within 2*log2(n+1) steps |
| RbInsert.Recolor | c/src/rb_tree.c:273-282 | the red-uncle branch in the heap: the focus is the grandparent, order and nodes as before |
| RbInsert.TurnInner | c/src/rb_tree.c:284-297 | an inner grandchild becomes an outer one, order and nodes as before |
| RbInsert.TurnOuter | c/src/rb_tree.c:299-305 | the rotation in the heap puts a black node above the focus, which ends the loop |
| RbInsert.InsertCase | c/src/rb_tree.c:264-308 | the fix-up ends in a red-black tree with the same nodes in the same order and consistent links |
| RbInsert.Find | c/src/rb_tree.h:30-41 | a node with the key, or null exactly when no node has it |
| RbDelete.Case1 | c/src/rb_tree.c:7-13 | delete_case1 in the heap, for either side: links, order and nodes are consistent and the sibling is black |
| RbDelete.Case3 | c/src/rb_tree.c:22-30 | delete_case3 in the heap, for either side |
| RbDelete.Case4 | c/src/rb_tree.c:32-41 | delete_case4 in the heap, for either side: a red-black tree, and the focus is the root |
| RbDelete.DeleteCase | c/src/rb_tree.c:125-162 | the loop ends; a tree short of one black node becomes red-black with the same nodes in the same order |
| RbDelete.Splice | c/src/rb_tree.c:229-242 | a child takes the node's place in the parent or the tree; the other child's links stay |
| RbDelete.RemoveNodeHasOneChild | c/src/rb_tree.c:227-246 | exactly that node leaves, and the tree is red-black again |
| RbDelete.SwapLinks | c/src/rb_tree.c:166-196 | after all the relinking the least node has the place, colour and children of the deleted one, whether or not it was its child |
| RbDelete.SwapNodeWithLeaf | c/src/rb_tree.c:164-201 | the least node to the right takes the place, and exactly the deleted node leaves |
| RbDelete.Delete | c/src/rb_tree.c:248-262 | deleting any node leaves a red-black tree with consistent links whose order is the old one without exactly that node |
| RbSubtree.SwapNodeWithSubtree | c/src/rb_tree.c:203-225 | the sibling replaces the parent in a red-black tree; what was cut off keeps its links |
| RbSubtree.InsertToMost | c/src/rb_tree.c:310-330 | the node becomes the first or the last of the subtree's order |
| RbSubtree.Reinsert | c/src/rb_tree.c:338-345 | the displaced parent comes back next to its old place and the tree is red-black |
| RbSubtree.RemoveSubtree | c/src/rb_tree.c:332-347 | the order loses exactly the subtree's segment, the displaced parent is back in its place, the tree is red-black; a fault exactly when the sibling is null |
| Pools.AddToPool | c/src/thread.c:53-62 | a sorted red-black pool gains the thread, after those that expire no later; a stopped thread or no pool gives -1 and changes nothing |
| Pools.DelFromPool | c/src/thread.c:64-73 | the pool the `pool` field names loses exactly the thread, and the field is cleared; -1 when there is none |
| Timeouts.LastDue | c/src/thread.c:113-117 | the walk ends at a due node of the right edge whose right child is not due |
| Timeouts.Detach | c/src/thread.c:118-123 | the right subtree becomes a pool with a black root and no parent link, and is no longer below the node |
| Timeouts.SplitRoot | c/src/thread.c:113-123 | root due: the returned front is all due and has no parent link; the kept back is a sorted red-black pool whose root is not due |
| Timeouts.CutLeft | c/src/thread.c:124-132 | root not due: nothing due is kept; a fault exactly when the first due node of the left edge has no sibling |
| Timeouts.RemoveTimeoutThreads | c/src/thread.c:105-135 | the order is cut into a returned prefix, non-empty exactly when a thread is due, and a kept suffix that is a pool again; with the root due the prefix is all due and the kept root is not, otherwise nothing kept is due |
| Worker.CutDue | c/src/thread.c:105-135 | the same cut by the expiry times before the call: the front had expired, the root of the rest had not |
| Timeouts.FaultShape | c/src/thread.c:125-131 | a fault needs a lone red leaf under a black parent with no other child |
| Timeouts.TwoThreadsFault | c/src/thread.c:125-131 | two threads are enough for a fault |
| Worker.Worker.ToIoWait | c/src/thread.h:88-93 | the thread, in no pool before, is in the io pool alone, with its new expiry; the other pool is as it was |
| Worker.Worker.ToSleep | c/src/thread.h:81-86 | the same for the sleep pool |
| Worker.Worker.ToStop | c/src/thread.h:74-79 | the thread is in no pool and last in the stop array; no pool changes, because the `pool` field is cleared before it is read |
| Worker.Worker.ThreadResume | c/src/mw_worker.c:83-121 | the thread ends up in the one place its outcome names, until the time it asked for, and no other thread moves; a stopped one is left alone |
| Worker.Worker.HandleFd | c/src/mw_worker.c:161-207 | an event takes the thread out of the pool it is in and resumes it: it is where its outcome puts it, and no other thread moves |
| Worker.Worker.HandleAccept | c/src/mw_worker.c:139-157 | a new thread is where its outcome puts it, all others stay |
| Worker.Worker.AllPlaced | c/src/thread.c:53-73 | every thread is in exactly the tree its `pool` field names, or stopped |
| Worker.CutLeaf | c/src/rb_tree.h:51-61 | a childless node is cut off and the walk goes on at its parent; what is left to visit is the old rest without it |
| Worker.Worker.Travel | c/src/rb_tree.h:43-64 | the destructive walk ends and visits exactly the post-order, although each visited thread is put into another tree at once; every thread is where its own outcome puts it, and the rest have not moved |
| Worker.AllGoneIn | c/src/mw_worker.c:97-118 | after any run of resumed threads each is in the pool or the stop array its outcome names |
| Worker.OthersStay | c/src/mw_worker.c:97-118 | the pools gain exactly the threads that wait or sleep, and the stop array grows by exactly those that finish |
| RbShape.ChildrenFirst | c/src/rb_tree.h:43-64 | in that order everything below a node comes before it |
| RbShape.PostPermutation | c/src/rb_tree.h:43-64 | that order has every node exactly once |
| Worker.Worker.ProcessIoTimeout | c/src/mw_worker.c:219-235 | a front of expired threads, up to a rest whose root has not expired, runs in post-order; each goes where its outcome puts it, the rest and the other pool keep their threads |
| Worker.Worker.ProcessSleep | c/src/mw_worker.c:260-274 | the same for the sleep pool |
| Worker.TravelOn | c/src/rb_tree.h:43-64 | a tree whose root still has a parent: after its own nodes the walk cuts a link of that parent and goes on there |
| Worker.WalkEntersPool | c/src/mw_worker.c:232-235 | with the root not due and some thread due, the walk enters the pool at a thread that is not due |
| RespSpec.FeedSplit | go/src/redisparser/parser.go:143-170 | writing two slices one after the other is writing them together: same state, same count |
| RespSpec.FeedReachable | go/src/redisparser/parser.go:143-281 | on every byte sequence finished children are finished through and through and the current node has none |
| RespSpec.OverWhenAllEnded | go/src/redisparser/parser.go:164-195 | the parser is over exactly when every node of the command tree has ended |
| RespWire.WrapMulitBulk | go/src/dial/redis/wrap.go:5-11 | the printer writes the count and then each argument's bulk, in order |
| RespWire.DecimalCanonical | go/src/dial/redis/wrap.go:6-17 | `%d`: decimal digits of the number without a leading zero, after a minus sign exactly if it is negative |
| RespWire.CanonicalUnique | go/src/dial/redis/wrap.go:6-17 | no other digits without a leading zero have that value |
| RespWire.BulkBytes | go/src/dial/redis/wrap.go:13-18 | the bytes of a nil bulk, and of any other around its length and its content |
| RespWire.AtoiDecimal | go/src/redisparser/parser.go:243-262 | every 64-bit number reads back from its decimal form |
| RespWire.AtoiForms | go/src/redisparser/parser.go:243-262 | a run of digits, with a sign or without, is its value when that fits 64 bits and no number otherwise |
| RespWire.AtoiOnly | go/src/redisparser/parser.go:243-262 | nothing else is a number |
| RespWire.FeedBulk | go/src/redisparser/parser.go:197-260 | a printed bulk, nil and CRLF-containing ones included, is taken exactly and is the argument |
| RespWire.FeedTree | go/src/redisparser/parser.go:180-281 | wherever a command can begin, a printed command tree is taken exactly and is the command that has ended there |
| RespWire.FeedKids | go/src/redisparser/parser.go:180-195 | the elements of an array, from any of them on, are taken one after the other up to the end of the array |
| RespWire.TreeRoundTrip | go/src/redisparser/parser.go:143-281 | status and error lines, 64-bit numbers, bulks and non-empty arrays nested to any depth are read back as they were printed, and exactly their bytes are taken |
| RespWire.BulkWithoutCrlf | go/src/redisparser/parser.go:197-209 | a bulk whose announced length is not followed by CRLF is an error, wherever it stands |
| RespWire.NotANumber | go/src/redisparser/parser.go:242-280 | a line that should be a number and is not starts over |
| RespWire.NegativeCount | go/src/redisparser/parser.go:261-265 | a negative array count panics |
| RespWire.NegativeLength | go/src/redisparser/parser.go:249-255 | every negative length is a finished nil bulk |
| RespWire.UnknownType | go/src/redisparser/parser.go:223-241 | any other type byte makes its line a command of unknown type |
| RespWire.RoundTrip | go/src/dial/redis/wrap.go:5-18 | parsing the printed array, whatever follows it, takes exactly the encoding and yields the arguments in order |
| RespWire.RoundTripExactly | go/src/redisparser/parser.go:261-273 | the array reads back if and only if there is an argument |
| RespWire.OpenIsStuck | go/src/redisparser/parser.go:148-162 | after `*0` every later byte is taken and changes nothing |
| RespParser.Parser.PopStacks | go/src/redisparser/parser.go:180-195 | the stack is the open arrays with their unstarted right siblings, first on top; ending a command ends those it completes and stops at the next sibling |
| RespParser.Parser.PopTurn | go/src/redisparser/parser.go:182-194 | an open array on top, all of whose children have ended, ends and is popped; anything else on top is the next sibling |
| RespParser.Parser.ParseStart | go/src/redisparser/parser.go:211-229 | the type byte, an unknown one included, does to the objects what the machine does |
| RespParser.Parser.ParseFixedLen | go/src/redisparser/parser.go:197-209 | the bytes of a bulk; the object goes wrong exactly when the machine does, for which see `RespWire.BulkWithoutCrlf` |
| RespParser.Parser.OpenArray | go/src/redisparser/parser.go:264-272 | an array gets its new, distinct commands, the first on top of the stack; an array of none stays current |
| RespParser.Parser.BulkLength | go/src/redisparser/parser.go:249-259 | a negative length is a finished nil bulk, any other starts the fixed-length body |
| RespParser.Parser.LineEnd | go/src/redisparser/parser.go:233-280 | a complete line of each type, a number that does not parse included |
| RespParser.Parser.ParseUntilCrlf | go/src/redisparser/parser.go:231-281 | the lines; a negative array count is the only way to a panic |
| RespParser.Parser.Write | go/src/redisparser/parser.go:143-170 | the object with its stack takes as many bytes and reaches the same state as the machine, on any bytes; what the machine yields is stated on bytes by the `RespWire` rows |
| RespParser.Parser.GetCommand | go/src/redisparser/parser.go:172-178 | a command exactly when the parser is no longer at work |
| RespConn.Connection.TakeCommand | go/src/protocol/redis/handle.go:27-38 | the finished command tree is handed over and a new parser takes its place |
| RespConn.Connection.HandleBytes | go/src/protocol/redis/handle.go:18-39 | the connection object does what the framing step on values does |
| RespConn.ChunksDecode | go/src/protocol/redis/handle.go:18-39 | for any cut into chunks: the items yielded, then what the retained bytes decode to, are the one-shot decoding; at most one a call |
| RespConn.YieldsArePrefix | go/src/protocol/redis/handle.go:18-39 | the commands yielded are a prefix of the decoding of the whole stream |
| RespConn.RetainedSuffix | go/src/protocol/redis/handle.go:22-25 | the bytes taken and the retained buffer together are the bytes received |
| Words.PowerOf2 | c/src/mem_buddy.c:14 | the bit test holds, above zero, exactly of the powers of two |
| Words.RoundUpLeast | c/src/mem_buddy.c:18-25 | the rounded request is the least power of two not below it, up to 2^31 |
| Buddy.Buddy.constructor | c/src/mem_buddy.c:27-47 | every mark of the new arena is its node's full mark |
| Buddy.Buddy.Descend | c/src/mem_buddy.c:61-69 | the descent ends at the leftmost node of the size that is whole |
| Buddy.Buddy.AllocClimb | c/src/mem_buddy.c:73-77 | every mark above is right again, and exactly the nodes above count as split from now on |
| Buddy.Buddy.Search | c/src/mem_buddy.c:86-93 | finds the one live node whose block holds the unit, or there is none |
| Buddy.Buddy.FreeClimb | c/src/mem_buddy.c:96-109 | every mark above is right again |
| Buddy.Buddy.Alloc | c/src/mem_buddy.c:49-79 | succeeds exactly when the root mark covers the rounded request; hands out the leftmost whole block of just that size and nothing else changes |
| Buddy.Buddy.Free | c/src/mem_buddy.c:81-110 | any unit of a live block gives back exactly that block; a unit of none, or out of range, changes nothing |
| Buddy.CoversIffWhole | c/src/mem_buddy.c:57-59 | the root mark covers 2^e if and only if a whole node of size 2^e exists |
| Buddy.LiveDisjoint | c/src/mem_buddy.c:70-78 | live blocks never share a unit |
| Buddy.BlockInRange | c/src/mem_buddy.c:72-78 | a block begins at a multiple of its size and lies inside the arena |
| Buddy.SearchEnd | c/src/mem_buddy.c:88-94 | the first zero mark on the way up is at the one live node that holds the unit |
| Buddy.NeverMerges | c/src/mem_buddy.c:102-108 | neither child's mark ever reaches the parent's full mark, so the equality branch is never taken |
| Buddy.DescendStep | c/src/mem_buddy.c:63-69 | the descent never gets stuck: one child keeps the promise of the node above |
| Buddy.Uncoalesced | c/src/mem_buddy.c:104-108 | after a smaller block has come and gone, the empty arena refuses its own full size |
| Slot.LeadingZeros | c/src/mem_slot.c:11-25 | the number of clear bits before the first set one |
| Slot.TrailingZeros | c/src/mem_slot.c:27-41 | the number of clear bits after the last set one |
| Slot.Masks | c/src/mem_slot.c:168-172 | which bits the two shifted and truncated masks hold; the second is empty at a byte boundary |
| Slot.MarkUsed | c/src/mem_slot.c:163-178 | sets exactly the bits of the run, for any alignment |
| Slot.MarkFree | c/src/mem_slot.c:180-195 | clears exactly the bits of the run |
| Slot.Slot.Scan | c/src/mem_slot.c:202-218 | finds the lowest free run that is not strictly inside one byte, or shows that there is none |
| Slot.Slot.Alloc | c/src/mem_slot.c:197-225 | that run, clear before, is marked and no other bit changes; -1 exactly when there is none or the size is zero |
| Slot.Slot.Free | c/src/mem_slot.c:227-232 | clears exactly the run, or nothing when the range leaves the units |
| Slot.ScanSkips | c/src/mem_slot.c:209-216 | restarting after a partly used byte skips no run that fits |
| Slot.ShortRunMissed | c/src/mem_slot.c:206-217 | for each size from one to six there is a bitmap with a free run that is never found |
| Slot.LongRunsFit | c/src/mem_slot.c:206-217 | from size seven on every free run fits, so the search is first fit |
| Slot.FreeUndoesAlloc | c/src/mem_slot.c:220-231 | freeing what was handed out restores every byte |
| Slot.SlackKept | c/src/mem_slot.c:163-195 | the byte after the units is touched and never changed |
| Slot.TracksAlloc | c/src/mem_slot.c:220-223 | the bitmap stays the union of the disjoint runs handed out |
| Slot.TracksFree | c/src/mem_slot.c:227-232 | the same when one of them comes back |
| MemPool.SortSizes | c/src/mem_pool.c:32-41 | the exchange sort leaves a sorted permutation and the sentinel in place |
| MemPool.SortedSizes | c/src/mem_pool.c:23-41 | the sizes of a new pool: sorted, the same multiset, the sentinel last |
| MemPool.BinarySearch | c/src/utils.h:55-72 | the key, or a place with only smaller sizes before and only greater ones after |
| MemPool.ChooseClass | c/src/mem_pool.c:57-60 | after the one-step correction: the smallest class that fits, or n exactly when none does |
| MemPool.Pool.New | c/src/mem_pool.c:9-48 | null for no sizes or no memory; otherwise a pool whose sizes are a sorted permutation of those given |
| MemPool.Pool.Alloc | c/src/mem_pool.c:52-84 | the best class, its free list first; the block was not in use, is long enough, and counters and lists stay exact |
| MemPool.Pool.Pop | c/src/mem_pool.c:69-73 | the first free block of the class leaves its list, `empty` loses its size |
| MemPool.Pool.Push | c/src/mem_pool.c:141-144 | the block becomes the first free one of its class, `empty` gains its size |
| MemPool.Pool.Recycle | c/src/mem_pool.c:129-146 | the block leaves those in use and heads the free list of its own class; an oversize one goes back to the system and is no longer the pool's |
| MemPool.Pool.Realloc | c/src/mem_pool.c:86-127 | which block answers, exactly: a class block that is long enough stays, one that is outgrown or an oversize one that fits a class makes way for the block memp_alloc gives, an oversize one that fits none is left to realloc; the first min(old, new) bytes are kept, or the answer is null and the old block is as it was; lists, counters and other blocks are exact |
| MemPool.Pool.SystemRealloc | c/src/mem_pool.c:109-112 | an oversize block in place or moved, with its first bytes; the old one is the pool's no longer if it moved |
| MemPool.Pool.MoveTo | c/src/mem_pool.c:101-121 | a block of the best class, from its free list first, begins with the old bytes and replaces the old block, which goes back; null exactly when memp_alloc gives none, and then nothing changes |
| MemPool.Pool.CopyTo | c/src/mem_pool.c:104-118 | memcpy: the first bytes arrive, the rest and the pool stay; the length must lie within both blocks, which both calls meet |
| MemPool.WeightedUpdate | c/src/mem_pool.c:144-145 | one block more or less of a class changes a counter by that class's size |

## Left out

- Worker.Worker.ProcessIoTimeout: requires that the pool's root is due or nothing is; in the remaining case the source's walk enters the pool, as `Worker.WalkEntersPool` shows, and no invariant survives.
- Worker.Worker.ProcessSleep: the same requirement, for the same reason.
- Worker.WalkEntersPool: what the script does to the threads visited on the way is left out, and so is everything after the walk has entered the pool.
- RbSubtree.RemoveSubtree: with a null sibling the source dereferences null; the model stops there with `fault` and claims nothing about the tree.
- Worker.Worker.ThreadResume: how a script yields is a free choice of waiting, sleeping or stopping; Lua, and the two kinds of sleep, are not told apart.
- Worker.Worker.HandleFd: the three handlers differ only in what they push for the script; the epoll registration they undo is not modelled.
- Worker.Worker.HandleAccept: one turn of the accept loop; a thread that cannot be set up, and the descriptor's resource, are not modelled.
- Worker.Worker.StartTurn: `process_stop_threads` frees the threads before the array is emptied; freeing is not modelled, and neither is the array's fixed capacity.
- RespParser.Parser.ParseFixedLen: `argLen + 2` is unbounded here; in Go it overflows for a length within two of 2^63. Slices share storage in Go; here they are values.
- RespParser.Parser.ParseUntilCrlf: a count that is not negative but too large for `make` also panics in Go; only the negative one does here.
- RespWire.WrapMulitBulk: requires no more arguments than there are; the source would index past the end.
- RespConn.Connection.HandleBytes: `processCommand`, the replies and the logger are not modelled.
- Buddy.Buddy.Alloc: a request of zero, which the source's loop runs away with, and one above 2^31, which rounds to zero in 32 bits, are excluded.
- Buddy.Buddy.constructor: requires logn at most 29, above which the int shifts overflow; failure of malloc is not modelled.
- Slot.Slot.Free: a negative offset, or an offset and size whose sum wraps around in 32 bits, gets past the source's test and is excluded.
- Slot.Slot.constructor: the byte after the units is part of the array here; in C it is the slack of the allocation.
- MemPool.Pool.New: more than 255 sizes, which the uint8_t count truncates, and sizes so close to SIZE_MAX that header and size wrap around, are excluded.
- MemPool.Pool.Alloc: `empty` and `used` are unbounded here and 32-bit ints in C; whether the system grants memory is an argument.
- Null trees, pools and allocators passed to the C functions, where the source returns at once.
- `bits_cl0_u32` and its 64-bit and trailing-zero relatives: the allocator does not use them.
- Printing and destroy functions, `recycle_threads_from_pool` and shutdown.
- Sockets, epoll, processes and descriptor passing; `bytes.c`, `dlist.c`; the Go connection pool, the store and the logger: plumbing, or easy members that would add little.
