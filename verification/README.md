# Verified model of the ScaraOS kernel core

ScaraOS is a small ia32 kernel. This project models its heap-shaped structures and
its uniprocessor concurrency protocol in Dafny 4.11 and proves what they are for.
`dafny verify dfyconfig.toml` checks everything.

| files | what they model |
|---|---|
| Common | constants of the machine, queues as sequences |
| RbShape, RbHeap, RbRepair, RbErase, RbWalk, RbTree | the intrusive red-black tree of kernel/rbtree.c |
| SlabModel, SlabInv, SlabRuns, SlabLaws, Slab | slab allocator, page allocator and kmalloc |
| SchedModel, SchedInv, Semaphores, SchedRuns, SchedLaws, Sched | scheduler, wait queues and semaphores |
| Keyed, InodeCache | search-and-link indexes, and the inode cache |
| Digits, FormatSpec, FormatLaws, FormatGrammar, FormatMeaning, Format | 64-by-32 division and vsnprintf |
| Vma, Ext2, PageCache, PageTable, Paging | demand paging from a fault to the bytes of a file |
| Lists | the circular lists of include/scaraOS/list.h |

How the parts are built:

- **Red-black tree.** A class holds a map from node addresses to cells (parent, colour, two
  children) and rewrites them as the C code does. A ghost tree says what shape the cells
  have, and a zipper (`Path` plus focussed subtree, predicate `Focus`) carries the loop
  invariants of insertion, erasure and stepping. The colour repairs are lemmas about trees
  in RbRepair; that the cells follow them is proved in RbHeap and RbErase. `RedBlack` means
  black root, no red node below a red one, equal black heights.
- **Slab allocator and scheduler.** A value (`Heap`, `State`) and step functions on it
  specify each operation. The class methods are proved to do exactly those steps, and the
  laws are proved over every finite run of steps. The free list of a slab is the chain of
  words inside the free objects; user code may write anything into objects that are in use.
- **Interrupts.** A region with interrupts off is one step, up to and including the task
  switch inside `sched()`. A call of `sched()` from an interrupt can come between any two
  steps. An exit is two steps, since interrupts come back before `sched()` is called.
- **Formatter.** `Text` is the unbounded output, defined on the format string alone. The
  imperative formatter over a bounded buffer is compared with it, and FormatGrammar compares
  it with the meaning of a format given as a sequence of literals and directives;
  FormatMeaning says what each directive prints, in terms of its argument alone.
- **Machine integers.** Addresses, offsets and lengths in paging, ext2 and vsnprintf wrap
  at 2^32 where the C code does.

Seven expected properties turned out false of the code. Each has a concrete
counterexample and an exact condition:

- Freeing a live object can panic (kernel/memchunk.c:313): `SlabLaws.GuardFires` is a run
  from boot, `SlabLaws.GuardExact` says that this happens if and only if the object
  starts at `o_ptr_end`.
- `lookup_vma` counts the end of an area as inside: `Vma.AdjacentEitherWay` gives two
  red-black trees over the same two areas that answer differently. `Vma.LookupExact` says
  that the answer is right if and only if every area that ends at the address stands, in
  the tree, below the one that contains it.
- `ext2_pread` past the end of a file but inside its last block copies with a wrapped
  length: `Ext2.ReadPastEndWraps`; `Ext2.WrapsExact` says exactly when it happens.
- vsnprintf returns too short a length when `%p` meets the end of the buffer:
  `FormatLaws.PointerMeetsEnd`, and `FormatLaws.LengthExact` says exactly when.
- A dead task need not be freed: `SchedLaws.NewTasksFreeNothing` leaves any number of them
  behind. `SchedLaws.FreedOnce` says that every task that exits is freed, and once, exactly
  when a task that has run before is switched to.
- `setup_vma` of an area that reaches the end of the address space links an area that ends
  before it begins: `Vma.InvertedHides` gives one that hides another area. The areas stay
  well-formed if and only if the arguments are not those of the predicate `Inverts`
  (`Vma.Context.Setup`, `Vma.InvertsExact`), and `Vma.FoundExact` says which areas are found
  if they do not.
- A page of an area without write permission can become writable: `Paging.StrayWrite` has a
  writable area that ends where such an area begins, and a lookup that finds the first one.
  `Paging.GuardedExact` says exactly when a fault does this, and `Paging.FaultsKeepGuarded`
  that it never does where lookups are right.

Where code and comments differ the code is followed: the comment on `list_del` calls the
entry undefined afterwards, but the code detaches it as an empty list, and the inode cache
relies on that. The formatter keeps `0` with a precision, prints `0x0` for `%#x` of 0 and
`0` for `%.0d` of 0, unlike section 7.19.6.1 of ISO/IEC 9899:1999.

## Model

| member | source | states |
|---|---|---|
| RbTree.RbRoot.Rotate | kernel/rbtree.c:25-48 | the cells after a rotation in either direction, with parent links and, at the top, the root pointer |
| RbHeap.RotateAfter | kernel/rbtree.c:25-48 | if the cells hold a tree around the node before, they hold the rotated tree after, on the same path |
| RbRepair.RotateKeepsOrder | kernel/rbtree.c:25-48 | a rotation anywhere in a tree keeps the in-order sequence of the whole tree |
| RbTree.RbRoot.LinkNode | include/scaraOS/rbtree.h:149-156 | the node becomes a red leaf in the given empty slot and nothing else moves |
| RbTree.RbRoot.InsertColor | kernel/rbtree.c:59-122 | from a red-black tree with a red leaf just linked anywhere: a red-black tree again, consistent parent links, order with exactly the new node in its slot; the loop terminates by depth |
| RbRepair.InsertRecolorKeeps | kernel/rbtree.c:69-79 | red uncle: recolouring moves the single possible violation two levels up |
| RbRepair.InsertRotateKeeps | kernel/rbtree.c:90-92 | outer grandchild: one rotation removes the violation |
| RbRepair.InsertUnbendKeeps | kernel/rbtree.c:81-88 | inner grandchild: the first rotation turns it into an outer one |
| RbTree.RbRoot.Insert | include/scaraOS/rbtree.h:149-156 | link followed by repair at the slot a search reached: still red-black, in-order sequence gains exactly that node there |
| RbRepair.SiblingExists | kernel/rbtree.c:124-202 | in every state the erase repair loop can reach, the sibling exists, and below a red sibling there is a black near nephew, so no missing node is dereferenced |
| RbRepair.EraseRedSiblingKeeps | kernel/rbtree.c:133-140 | red sibling: after the rotation the deficit is the same and the sibling is black |
| RbRepair.EraseRecolorKeeps | kernel/rbtree.c:141-147 | black nephews: recolouring passes the deficit to the parent |
| RbRepair.EraseUnbendKeeps | kernel/rbtree.c:150-156 | red near nephew only: the rotation makes the far nephew red |
| RbRepair.EraseRotateEnds | kernel/rbtree.c:157-162 | red far nephew: the last rotation yields a red-black tree with the order unchanged |
| RbTree.RbRoot.EraseColor | kernel/rbtree.c:124-202 | from one missing black at any place to a red-black tree with the same order; terminates |
| RbErase.TransplantDone | kernel/rbtree.c:213-248 | two children: after all the pointer updates, in either sub-case, the cells hold the tree with the successor in the erased node's place |
| RbErase.TransplantOrder | kernel/rbtree.c:213-248 | that tree has the old order minus the erased node |
| RbErase.TransplantColors | kernel/rbtree.c:213-269 | it is red-black if the successor was red, and otherwise lacks exactly one black at the successor's old place |
| RbTree.RbRoot.Erase | kernel/rbtree.c:204-269 | for every red-black tree and every node of it: consistent links, red-black, in-order sequence without exactly that node |
| RbTree.RbRoot.ReplaceNode | kernel/rbtree.c:350-371 | the same tree, shape and colours, with the new node where the old one stood, links consistent |
| RbTree.RbRoot.End | kernel/rbtree.c:274-296 | rb_first and rb_last: first and last of the order, null for an empty tree |
| RbTree.RbRoot.Follow | kernel/rbtree.c:298-348 | rb_next and rb_prev: the neighbour in the order, null at the end |
| RbTree.RbRoot.Traverse | kernel/rbtree.c:274-324 | rb_first and then rb_next until null visits exactly the in-order sequence |
| RbTree.RbRoot.ThereAndBack | kernel/rbtree.c:298-348 | rb_prev undoes rb_next and the other way round wherever both are defined |
| RbTree.RbRoot.Descend | fs/inode.c:49-65 | the search loop finds a node that compares equal if there is one, else the slot between all smaller and all greater ones, in at most 2*log2(n+1) steps |
| RbShape.HeightBound | kernel/rbtree.c:59-202 | a red-black tree of height h has at least 2^(h/2)-1 nodes, h/2 rounded up |
| RbShape.PlugRedBlack | kernel/rbtree.c:59-202 | a tree is red-black if and only if its subtree and its surroundings are, with matching black heights and colours |
| RbHeap.Seek | kernel/rbtree.c:204-269 | every node of a tree in memory has a path to it that the cells follow |
| Keyed.UniqueKeys | fs/inode.c:49-65 | in an ordered index no two nodes have the same key |
| Keyed.SlotMeansAbsent | fs/inode.c:49-65 | a search that ends in a slot proves the key absent |
| Keyed.SlotKeepsOrder | fs/inode.c:83-85 | linking at the reached slot keeps the index sorted and unique |
| Keyed.EraseOrders | fs/inode.c:93-104 | erasing one node keeps it sorted and removes exactly that key |
| SlabInv.AllocFromPartialKeeps | kernel/memchunk.c:206-216 | taking the head of a slab's free list keeps the allocator invariant |
| SlabInv.AllocFastKeeps | kernel/memchunk.c:218-231 | bumping the pointer in the current slab keeps it, also when the slab sits on the partial list |
| SlabInv.NewSlabKeeps | kernel/memchunk.c:62-80 | so does giving a cache a fresh current slab |
| SlabInv.PushKeeps | kernel/memchunk.c:322-332 | so does pushing an object on its slab's free list |
| SlabInv.DropKeeps | kernel/memchunk.c:334-342 | so does returning an unused slab's page |
| SlabInv.FastMeansNoneFreed | kernel/memchunk.c:260-287 | the bump pointer is used only when the current slab has no freed object |
| SlabInv.SlowMeansAllFull | kernel/memchunk.c:233-251 | alloc_slow is reached only with no partial and no current slab, every slab of the cache being full |
| SlabRuns.AllocEffect | kernel/memchunk.c:260-287 | an allocation hands out exactly one object that was not in use; all others keep their state |
| SlabLaws.PageOnlyWhenFull | kernel/memchunk.c:233-287 | in every run: a page is taken only when every object of every slab of the cache is in use; the allocator gives up if and only if that is so and no page is free |
| SlabRuns.FreeEffect | kernel/memchunk.c:305-344 | a free takes exactly that object out of use; the page goes back exactly with the last object |
| SlabRuns.WriteKeeps | kernel/memchunk.c:206-344 | user code writing any word of an object in use cannot break a free list |
| SlabRuns.StepKeeps | kernel/memchunk.c:143-344 | every operation, on any cache, page taken or returned, keeps the invariant |
| SlabRuns.RunsKeepInv | kernel/memchunk.c:143-344 | hence every state of every run from boot satisfies it |
| SlabLaws.CacheSizes | kernel/memchunk.c:31-46 | in every run, the objects of a cache have the size that objcache_init was asked for, or that of a pointer if that is more, and as many are in a page as fit |
| SlabLaws.CacheStays | kernel/memchunk.c:143-163 | a cache that was asked for is there from then on, for the size asked for |
| SlabLaws.LiveDisjoint | kernel/memchunk.c:206-344 | in every run from boot, objects in use never overlap, for the sizes that were asked for, and each lies in a page owned by its own cache |
| Slab.Memory.ObjcacheInit | kernel/memchunk.c:143-163 | a cache for objects of the size asked for and at least a pointer, none for size 0 or without memory, an assertion failure above a page; the invariant is kept |
| SlabLaws.SlabAccounts | kernel/memchunk.c:206-344 | in every run: in use + freed + never used = o_num; the free list repeats nothing; full and partial list membership follows from the counts |
| SlabLaws.PagesAccounted | kernel/buddy.c:34-81 | in every run: a non-reserved frame is on the free list, exactly once, if and only if its count is 0; never also a slab; nr_freepages is the length of the list |
| SlabLaws.GuardExact | kernel/memchunk.c:311-313 | in every run, freeing a live object panics if and only if it starts at o_ptr_end; then it is the first of its page and objects fill pages exactly |
| SlabLaws.GuardFires | kernel/memchunk.c:305-344 | a run of five operations from boot after which a correct free panics |
| SlabLaws.AssertionsHold | kernel/memchunk.c:311-326 | the other assertions of do_cache_free hold for every live object in every run |
| Slab.Memory.AllocPage | kernel/buddy.c:58-81 | takes the first free page or reports that there is none |
| Slab.Memory.FreePage | kernel/buddy.c:34-55 | puts the page back at the end of the list |
| Slab.Memory.AllocFromPartial | kernel/memchunk.c:206-216 | does the step of the model |
| Slab.Memory.AllocFast | kernel/memchunk.c:218-231 | does the step of the model |
| Slab.Memory.AllocSlow | kernel/memchunk.c:233-251 | does the step of the model, or reports that no page is left |
| Slab.Memory.Alloc | kernel/memchunk.c:260-287 | invariant kept; the result is a slot that was not in use and is now |
| Slab.Memory.Free | kernel/memchunk.c:305-380 | invariant kept; exactly this object leaves use, unless it starts at o_ptr_end, and then nothing changes |
| Slab.SizeClass | kernel/kmalloc.c:25-36 | the loop finds the least class that is big enough, none exactly for more than a page |
| Slab.ClassAligned | kernel/kmalloc.c:25-36 | objects of a class are aligned to its size and fill pages exactly |
| Slab.KmallocInit | kernel/kmalloc.c:12-23 | the loop makes one cache for each class and leaves every other cache alone: what kmalloc relies on |
| Slab.Kmalloc | kernel/kmalloc.c:25-36 | a block of the least fitting class, aligned to it, not in use before; no block if and only if there is neither a free page nor a free object of that class; the caches of the classes stay as they were made |
| SchedInv.SchedKeeps | kernel/sched.c:162-219 | sched() keeps the placement invariant from any point it is called at, rotation, switch and flush included |
| SchedInv.BlockKeeps | kernel/sched.c:15-28 | so does going to sleep |
| SchedInv.WakeOneKeeps | kernel/sched.c:51-67 | so does waking one |
| SchedInv.WakeUpKeeps | kernel/sched.c:35-49 | so does waking all |
| SchedInv.ExitKeeps | kernel/sched.c:95-104 | so does the first half of an exit |
| SchedInv.ForkKeeps | kernel/sched.c:132-157 | so does a new task |
| Semaphores.StepKeeps | kernel/semaphore.c:5-23 | every step keeps placement and the semaphore invariant: counters exact, and woken but not yet rechecked tasks at least val whenever some task waits |
| SchedRuns.RunsAreSafe | kernel/sched.c:15-219 | so both hold in every state of every interleaving from boot |
| SchedLaws.OnOneList | kernel/sched.c:15-107 | in every state of every run from boot, each live task but idle is on exactly one list, once, and its state field says which kind |
| SchedLaws.OnlyCurrentRuns | kernel/sched.c:162-219 | in every run, the current task, unless exiting, is the only RUNNING one, and heads the run queue unless idle |
| SchedLaws.AssertionsHold | kernel/sched.c:162-193 | at every call of sched() in every run, the one inside sleep_on included, the assertions at lines 178 and 187 hold |
| SchedLaws.SemaphoreExact | kernel/semaphore.c:5-23 | in every run, val = initial - completed P + completed V, and never negative |
| SchedLaws.MutualExclusion | kernel/semaphore.c:5-23 | in every run in which only holders do V, the holders number initial - val: with initial value 1 never two at once |
| SchedLaws.NoLostWakeup | kernel/semaphore.c:5-23 | in every run, while tasks wait at least val woken ones have yet to recheck, and all of those are on the run queue |
| SchedRuns.WakeUpMoves | kernel/sched.c:35-49 | wake_up moves exactly the waiters of its queue, in order, to the end of the run queue, and changes nothing else |
| SchedLaws.StepWaiters | kernel/sched.c:15-67 | what every step does to every queue: a sleeper joins at the end, V takes the first waiter out and makes it runnable, wake_up takes all out, anything else leaves it alone |
| SchedLaws.SleepHolds | kernel/sched.c:15-32 | in every run, who calls sleep_on on a queue of its own is asleep on it until the next wake_up of that queue |
| SchedLaws.SleepEnds | kernel/sched.c:35-49 | and is runnable right after that wake_up |
| SchedLaws.WakeUpWakes | kernel/sched.c:35-49 | in every run, a task asleep on such a queue is runnable after the next wake_up of it, behind those that were runnable before |
| SchedLaws.FirstComeFirstServed | kernel/semaphore.c:5-23 | in every run, a task at index k of the queue of a semaphore is off it after at most k+1 V |
| SchedLaws.TheDeadStayDead | kernel/sched.c:95-107 | once exited and switched away from, a task is never current again in any run |
| SchedLaws.NeverRunsAgain | kernel/sched.c:95-107 | from the first call of sched() after its exit on, a task is never current again |
| SchedLaws.FreedOnce | kernel/sched.c:182-219 | every task that has exited, still current or not, is freed exactly once, exactly at the first switch from then on to a task that has run before, its own last switch included; until then not at all |
| SchedLaws.ExitEnds | kernel/sched.c:95-107 | in every run, for every exit: the task is current exactly until the next call of sched(), and freed by a given step, once, if and only if a switch in between went to a task that had run before |
| SchedLaws.NewTasksFreeNothing | kernel/sched.c:209-216 | for every n a run from boot that leaves n dead tasks and has freed none, since it switches only to new tasks |
| SchedRuns.StepRank | kernel/sched.c:162-219 | no step moves a runnable task back, and each call of sched() moves it forward |
| SchedRuns.BoundedWaiting | kernel/sched.c:162-219 | a task at index k of the run queue runs after at most k+1 calls of sched(), whatever else happens |
| Sched.Kernel.GetNextTask | kernel/sched.c:162-180 | the rotation and choice of the model; never a sleeping task |
| Sched.Kernel.FlushDelq | kernel/sched.c:182-193 | the loop frees the whole delete queue in order, each a zombie |
| Sched.Kernel.Sched | kernel/sched.c:195-219 | does the step of the model; from a safe state it is the next state of a run, and safe |
| Sched.Kernel.SleepOn | kernel/sched.c:15-32 | does the step of the model; from a safe state it is the next state of a run, and safe |
| Sched.Kernel.WakeUp | kernel/sched.c:35-49 | every waiter of the queue, in order, goes to the end of the run queue and is ready, the queue is empty, every other task and queue is as it was; from a safe state it is the next state of a run, and safe |
| Sched.Kernel.WakeOne | kernel/sched.c:51-67 | the first waiter, if any, goes to the end of the run queue and is ready; every other task and queue is as it was; a safe state stays safe |
| Sched.Kernel.TaskToRunq | kernel/sched.c:83-93 | a task that was on no list is on exactly one list now, behind every runnable task; every other task is on the lists it was on |
| Sched.Kernel.SemV | kernel/semaphore.c:5-13 | does the step of the model; from a safe state it is the next state of a run, and safe |
| Sched.Kernel.SemP | kernel/semaphore.c:15-23 | one turn of the loop: taken if and only if val was positive, else asleep; from a safe state it is the next state of a run, and safe |
| Sched.Kernel.NewTask | kernel/sched.c:132-157 | a task that never ran joins the end of the run queue; from a safe state it is the next state of a run, and safe |
| Sched.Kernel.DoExit | kernel/sched.c:95-104 | the locked region of an exit; from a safe state it is the next state of a run, and safe |
| InodeCache.Cache.Iget | fs/inode.c:40-90 | the cached inode with one more reference if there is one; else a new one with one reference, or nothing; either way off the slack list |
| InodeCache.Cache.Iref | include/scaraOS/vfs.h:114-118 | one more reference, every index and the slack list unchanged |
| InodeCache.Cache.Iput | include/scaraOS/vfs.h:119-124 | one reference less, and on the slack list exactly when none is left |
| InodeCache.Cache.FreeFirst | fs/inode.c:93-104 | the first slack inode leaves list, cache and its index; every index stays a red-black index |
| InodeCache.Cache.Squeeze | fs/inode.c:106-116 | exactly the inodes nobody holds go |
| InodeCache.OneInode | fs/inode.c:40-90 | at most one inode per superblock and number |
| Digits.DoDiv | include/arch-ia32/div64.h:4-15 | exact quotient and remainder of any 64-bit number by any non-zero 32-bit one; neither division overflows |
| Digits.NumeralReadsBack | kernel/vsprintf.c:164-168 | the digits printed read back to the number in every base |
| Digits.NumeralNoLeadingZero | kernel/vsprintf.c:164-168 | and have no leading zero |
| Format.FillDigits | kernel/vsprintf.c:164-168 | the loop over do_div leaves the numeral, least digit first, in at most 64 places of the scratch buffer |
| FormatLaws.ScratchSuffices | kernel/vsprintf.c:130-168 | no 64-bit value, the most negative included, needs more than 64 digits |
| FormatLaws.NumberLength | kernel/vsprintf.c:130-221 | length = max(width, sign + prefix + max(precision, digits)) |
| FormatLaws.NumberReadsBack | kernel/vsprintf.c:130-221 | blanks on one side at most, then sign, prefix, and digit characters of the base that read back to the magnitude |
| FormatMeaning.NumberShape | kernel/vsprintf.c:130-221 | the field of a number, completely: blanks only up to the width and on the side the flags say, digits of the base that read back to the magnitude, zeros in front only to reach the precision or, with the 0 flag, the width |
| Format.Sink.Number | kernel/vsprintf.c:130-221 | appends exactly that text, cut at the end of the buffer |
| Format.SkipAtoi | kernel/vsprintf.c:113-120 | the number at the cursor, and the first place after it |
| Format.ReadDirective | kernel/vsprintf.c:266-316 | flags, width, precision and qualifier as the parser specifies them |
| FormatMeaning.DigitTables | kernel/vsprintf.c:134-135 | digit characters and their values are those of the two tables |
| FormatMeaning.ReducesOnce | kernel/vsprintf.c:437-453 | the casts of arguments give the one integer of 8, 16, 32 or 64 bits, signed or unsigned, that is congruent to the argument |
| FormatGrammar.AtoiReadsBack | kernel/vsprintf.c:113-120 | skip_atoi reads back, in any context, the decimal numeral that the digit loop prints |
| FormatGrammar.ParseRender | kernel/vsprintf.c:266-316 | round trip: parsing a written directive, with flags in any order and number, any width, precision and qualifier, ll as well as L, gives it back and stops at its conversion character |
| FormatGrammar.TextOfPieces | kernel/vsprintf.c:233-466 | for every format written from literals and directives the text is the meaning of its pieces, one after the other, arguments used from left to right |
| FormatGrammar.RunNul | kernel/vsprintf.c:424-435 | for every format, a directive that the end of the format cuts short prints %, and nothing comes after it |
| FormatMeaning.ConvertShown | kernel/vsprintf.c:319-455 | for every directive: d, i, u, o, x, X print the argument in the bits of the qualifier, with - if and only if it is negative and the conversion signed, the prefix that # asks for, and digits in base 10, 8 or 16; c the character, s the string up to the precision or <NULL>, each in its field; p an address; % and unknown characters themselves; which argument each uses, and what %n stores |
| FormatMeaning.EveryFormat | kernel/vsprintf.c:233-466 | every format is a sequence of literals and directives, each part as long as it can be, and its text is what they print in that sense, one after the other |
| FormatLaws.SizeDoesNotMatter | kernel/vsprintf.c:233-466 | the text worked through does not depend on the buffer size |
| FormatLaws.CursorBehind | kernel/vsprintf.c:233-466 | the returned length never exceeds the full length |
| FormatLaws.LengthExact | kernel/vsprintf.c:233-466 | it equals it if and only if every %p has room for its prefix |
| FormatLaws.NoPointerFits | kernel/vsprintf.c:233-466 | so always for formats without p |
| FormatLaws.PointerMeetsEnd | kernel/vsprintf.c:367-383 | "%p" into two bytes returns 9 instead of 10 |
| Format.Vsnprintf | kernel/vsprintf.c:233-466 | for every format, arguments and size: writes only inside the buffer, leaves the first size-1 characters of the unbounded text and a NUL, and returns its length exactly when every %p fits; and the text is, piece by piece, what the directives of the format mean |
| Vma.Context.Lookup | kernel/mm.c:12-28 | in every tree, ill-formed areas included: only an area that touches the address, and exactly when the area containing it is found; in a well-formed tree null if and only if none touches it, and exactly when the answer is right |
| Vma.LookupExact | kernel/mm.c:12-28 | for every tree of well-formed areas, empty ones included, and every address: the answer is right if and only if each area that ends there stands below the one that contains the address |
| Vma.FoundExact | kernel/mm.c:12-28 | for every tree of areas, such as end before they begin included: the area containing an address is found if and only if all areas in whose right subtree it stands begin and end before the address |
| RbWalk.FirstHit | kernel/mm.c:12-28 | a descent ends at the highest node that compares equal, all others being below it |
| Vma.LookupRight | kernel/mm.c:12-28 | away from the ends of areas that is the area containing the address |
| Vma.LookupWrong | kernel/mm.c:12-28 | at the end of an area where no other begins it is always wrong |
| Vma.AdjacentEitherWay | kernel/mm.c:12-28 | where two areas meet the answer depends on the shape of the tree |
| Vma.OneContains | kernel/mm.c:72-94 | areas in the tree never overlap |
| Vma.Context.Insert | kernel/mm.c:72-94 | links the area if and only if it overlaps none, else the assertion fails and nothing changes |
| Vma.Context.Setup | kernel/mm.c:96-125 | for all arguments: an area with exactly the protections and the file asked for, that covers every address asked for if these fit the address space; no memory if and only if the object cache has none; an assertion failure if and only if offset and address are misaligned or an area is in the way; the areas stay well-formed if and only if the new one does not reach the end of the address space |
| Vma.CoversExact | include/scaraOS/mm.h:72-80 | for all arguments: the new area contains every address asked for if and only if the request, rounded up, ends below 2^32 or is empty |
| Vma.CoversLeast | include/scaraOS/mm.h:72-80 | and then it is the least run of pages that does: each of its addresses is on the page of one that was asked for |
| Vma.OverlapsExact | kernel/mm.c:84-90 | the overlap test of vma_insert, for areas that are not empty, is true if and only if they share an address |
| Vma.InvertsExact | include/scaraOS/mm.h:72-80 | for all arguments: rounding makes an area end before it begins if and only if its begin plus its rounded size reaches 2^32 |
| Vma.InvertedHides | kernel/mm.c:72-94 | an area that does so, linked between two others, hides one of them from every lookup, in whatever red-black tree |
| Vma.FaultOffset | kernel/mm.c:44-45 | the offset a fault computes is the set-up offset plus the distance of its page from the set-up address |
| Ext2.Pread | fs/ext2.c:7-52 | the wanted slice, or a correct prefix up to the first block that cannot be read, the rest of the buffer untouched; and exactly when it panics or copies with a wrapped length |
| Ext2.ClampIsWanted | fs/ext2.c:13-17 | when nothing wraps the clamped length is the part of the request inside the file |
| Ext2.OrdinaryReadsDoNotWrap | fs/ext2.c:13-17 | reads that start inside the file never wrap |
| Ext2.WrapsExact | fs/ext2.c:13-49 | for every read, exactly when the copy length wraps: offset past the end inside the last block, or an end beyond 2^32 that comes round to the block of the offset |
| Ext2.ReadPastEndWraps | fs/ext2.c:13-49 | reads past the end, inside the last block, always do |
| PageCache.Cache.ReadPage | kernel/pagecache.c:5-58 | a cached page is returned as it is with one more reference; otherwise one page is added that holds every byte of the file up to the first block that fails, and zeros from there and past the end; and exactly when there is no page or an assertion fails |
| PageCache.ReadEnds | kernel/pagecache.c:39-47 | whatever number of bytes a read gave, the page then has the bytes before the first failing block, all of them, and zeros behind |
| PageCache.ReplyKeeps | kernel/pagecache.c:5-58 | no call changes a cached page but for one more reference to the page returned; a new page has one; and while blocks can be read every cached page equals the zero-padded slice of the file |
| PageCache.FillableMeans | kernel/pagecache.c:35-43 | when a new page can be filled, in 32-bit arithmetic |
| PageCache.PageReadsDoNotWrap | kernel/pagecache.c:39 | page reads at page boundaries never wrap |
| PageCache.ShortExact | kernel/pagecache.c:39-47 | a read of a page is complete if and only if every block of that page can be read, and gives something if and only if the first can |
| PageTable.AddressSpace.constructor | arch-ia32/mm.c:327-342 | the new directory is a copy of the kernel's |
| PageTable.AddressSpace.MapPage | arch-ia32/mm.c:383-418 | exactly one page translates to the given frame with the requested write bit, every other translation is unchanged, also when a table is allocated; kernel entries never change; and exactly when it fails |
| PageTable.NewTableKeeps | arch-ia32/mm.c:395-404 | a cleared table under an absent entry changes no translation |
| PageTable.EntrySet | arch-ia32/mm.c:406-411 | writing one table entry changes the translation of one page only |
| PageTable.SameEntry | include/arch-ia32/mm.h:36-46 | directory and table index agree for two addresses if and only if they are on one page |
| PageTable.AddressParts | include/arch-ia32/mm.h:36-46 | directory index, table index and offset make up the address, ten, ten and twelve bits of it |
| PageTable.FlagsByOr | arch-ia32/mm.c:401-409 | on page-aligned addresses the bitwise ors that build an entry are the additions of the model |
| PageTable.EntryParts | include/arch-ia32/mm.h:48-50 | frame and flags are recovered from an entry |
| PageTable.EntryFlags | include/arch-ia32/mm.h:48-50 | the flags are in bits 0 to 2: 7 for a directory entry, 7 or 5 for a table entry |
| Paging.Process.PageFault | kernel/mm.c:30-70 | handled if and only if there is an area, permission, a page for it and a place in the tables; without any access in common with the area it is refused and nothing changes; else the page of the area found is mapped, from its file, or zeros in every byte, and no other translation, cached page or anonymous page changes |
| Paging.Process.FaultInFile | kernel/mm.c:30-70 | for every address that setup_vma was asked to map to a file, or another of its pages, with permission and where the lookup answers right: exactly when the fault is handled; every address x of the page is then mapped to one frame that shows the byte of the file at off0 + (x - va0), modulo 2^32, zero past its end, for every byte up to the first block that failed when the page was read, and zero behind it; with readable blocks, all of it, and that stays so |
| Paging.GuardedExact | kernel/mm.c:41-64 | a fault by one kind of access keeps user code from writing to areas without write permission, unless, exactly, a write is let through at an address whose own area forbids it |
| Paging.FaultsKeepGuarded | kernel/mm.c:30-70 | over every sequence of faults where the lookup answers right, no page of an area without write permission becomes writable |
| Paging.NewGuarded | arch-ia32/mm.c:327-342 | and in a new address space none is |
| Paging.StrayWrite | kernel/mm.c:12-64 | where it does not, one can: a write at the begin of such an area is served from the area that ends there |
| Paging.Process.Covered | kernel/mm.c:12-28 | where the lookup answers right, a fault is served from the area that contains the address |
| Lists.ListHeap.Add | include/scaraOS/list.h:66-69 | first entry of the list, all other lists unchanged |
| Lists.ListHeap.AddTail | include/scaraOS/list.h:79-82 | last entry of the list, all other lists unchanged |
| Lists.ListHeap.Del | include/scaraOS/list.h:103-107 | the list without that entry, and the entry a detached empty list |
| Lists.ListHeap.DelDetached | include/scaraOS/list.h:103-107 | deleting a detached entry changes no link |
| Lists.ListHeap.Move | include/scaraOS/list.h:114-118 | out of its list and to the front of the other, or the same |
| Lists.ListHeap.MoveTail | include/scaraOS/list.h:125-130 | out of its list and to the end of the other, or the same |
| Lists.ListHeap.Empty | include/scaraOS/list.h:136-139 | true if and only if the list has no entry |
| Lists.ListHeap.First | kernel/sched.c:166-171 | the next link of a head leads to the first entry, or back to the head of an empty list |
| Lists.ListHeap.NextTaskEntry | kernel/sched.c:162-180 | get_next_task on linked rings does to the run queue, and returns, what the scheduler model does on the sequence |
| Lists.InsertRing | include/scaraOS/list.h:48-56 | _list_add in a ring gives the ring with the entry between the two |
| Lists.BypassRing | include/scaraOS/list.h:91-95 | list_del_internal in a ring gives the ring without the entry |
| Common.RemoveAt | include/scaraOS/list.h:91-110 | what list_del does to a list as a sequence: one entry goes, all others stay in their order |

## Left out

- Drivers, port I/O, assembly, descriptor tables and the inside of `switch_task`: a switch is a change of the current task.
- do_clone_vma, mem_ctx_clone and clone_ctx: page tables are those of a context that was not forked.
- The descriptor table (kernel/fdt.c), namei, dentries and directory lookup, ELF loading, partition parsing, printk, vsscanf and the strto functions, the string library, hlist: plumbing or simple scans.
- ext2_read_inode and indirect blocks: a file is its size and its direct blocks; a read beyond them is the `Panic` outcome. The block size is fixed at 1024.
- Boot memory sizing and buddy orders above 0: the page allocator starts from any list of free frames.
- Deadlock freedom between semaphores, and how memsem, slacksem, pagesem and the page cache lock serialise callers: each allocator, inode cache and page cache operation is one step.
- Freeing pages inside flush_delq is one atomic return of the page; new instances of a task get new names even when they reuse a page.
- The idle task never sleeps and never exits; wake_one looks at the list inside its step, not before it.
- Red-black links: the packed parent and colour word is kept as two fields.
- Queues, slab lists and the slack list are sequences in their own modules; that list.h does to linked rings what these modules do to sequences is proved separately in Lists.
- Semaphore values, reference counts and page counts are unbounded; so are width and precision read by skip_atoi.
- A format that uses more arguments than were passed reads zeros; %n stores are returned, not written.
- The address of a buffer plus its output length does not pass 2^32 except in the size test of vsnprintf.
- Vma.Context.Setup: requires well-formed areas before the call; what a further setup_vma or page fault does in a context that holds an area ending before it begins is not modelled, only lookups are.
- Nothing writes to cached file pages. The page fault handler asks for one kind of access, so where lookups are right only an area with write permission is mapped writable, and do_exec gives none to areas of files; setup_vma itself does not exclude it.
- Copying to user memory cannot fail, TLB flushes and poison fills have no effect, and objects of the inode and area caches come from outside instead of from the slab model.
- InodeCache.Cache.Iput: the decrement outside slacksem is part of its step.
