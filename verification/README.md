# Verified models of the kernel_learning programs

The repository collects small systems programs: sorting and tree exercises, two
producer/consumer protocols, a blocking queue driver, an I2C master driver, a
byte-addressed store over a block device and a two-level image hash. This
project models the ones that hold an algorithm or a state machine of their own,
in Dafny 4.11, and proves what each of them promises - and, where a promise
does not hold of the code, proves exactly when it does.

`dafny verify dfyconfig.toml` checks the whole project.

| file | models |
|---|---|
| Sorting.dfy | what the three sorts compute; permutations by counting |
| ShellSort.dfy, FastSort.dfy, MergeSort.dfy | Algorithem/sort |
| SemProdCons.dfy | Application/ipc/sem/sem.c |
| MutexCond.dfy | Application/ipc/mutex_cond/mutex_cond.c |
| HashSet.dfy | Languge/shell/safeboot/util_auth.sh |
| Veeprom.dfy | Application/ota/ota_tool/sub_src/veeprom.c, eMMC path |
| GlobalFifo.dfy | process_schedule/fork/globalfifo.c |
| BinaryTree.dfy | Algorithem/tree/binary-tree/basic/binary.c |
| I2cBus.dfy, I2cClock.dfy | device_driver/i2c/bus/i2c_bus.c |
| Arithmetic.dfy, Wrappers.dfy | shared facts and types |

How the programs are read:

- Programs that change arrays or fields are methods on arrays and classes, each
  tied to a function of the old state; the main results are lemmas about those
  functions and about whole runs.
- Threads are interleaving transition systems. In sem.c every semaphore
  operation and every buffer access is a step; in mutex_cond.c every statement
  is; in globalfifo.c every statement of the driver that touches the mutex, the
  task state or the queue. A schedule is an arbitrary sequence of steps, so a
  statement about every schedule is a statement about every run.
- Device answers are parameters: the status words and FIFO bytes of the I2C
  controller, the failing device calls of the store, the failing copies to and
  from user space, the hash function.

Promises the code keeps only under a condition, each with its exact condition:

- sem.c, started with nempty = nstored = 1, can read an item one lap old; items
  arrive in order in all interleavings exactly under `Fifo` (`FifoExactly`).
- mutex_cond.c overruns its buffer exactly when nitems exceeds MAXSIZE
  (`OverrunExactly`); it can skip an index, whose turn comes before it was
  stored, exactly when a producer and a consumer run and nitems is at least 2
  (`SkippedExactly`, `SkippedForEver`); and it can leave a consumer asleep for good
  with items ready exactly when a producer and two consumers run and nitems is
  within the buffer (`AbandonedExactly`, `AbandonedForEver`): a producer signals
  only when nothing is ready, and the consumer it woke may return.
- globalfifo.c: FIFO_CLEAR makes room without waking sleeping writers. Without
  it nobody is stranded (`WithoutClears`); with it a writer can be, and a reader
  and a writer can end up waiting for each other, exactly when two threads use
  the device (`StrandedExactly`).
- veeprom.c: is_parameter_valid judges every request rightly exactly for stores
  below 2 GiB (`AcceptedExactly`), and lets requests pass whose rounds leave the
  transfer buffer or the store; every round is on target exactly for the
  requests in `InRange` (`OnTargetExactly`). The failures are an offset that
  underflows (`Underflows`), a window before the store (`LeavesTheStore`), a
  negative size (`MovesTooMuch`) and a position that wraps (`PositionWraps`).
- i2c_bus.c can transfer a list of messages exactly when none before the last
  is empty (`PossibleExactly`), and can report success although messages were
  never sent exactly when one is (`SuccessExactly`); the divider is wrong
  exactly on the overflows named by `Overflows` (`CalcDividerExactly`), the
  rounded rate is not the best one exactly when there is none or the sum wraps
  and the parent is not 2 Hz (`RoundRateBestExactly`).
- util_auth.sh: equal hashes of images of m and n bytes show a collision of the
  hash function exactly when the two lengths are not `Confusable`
  (`BindingExactly`); for all other lengths there are two images and a hash
  function with equal hashes and no collision at all (`Level2Twins`,
  `PaddedTwins`). Images without a collision have one hash exactly if they are
  twins (`SameHashExactly`).
- binary.c builds back the printed tree exactly when no label is the marker -1
  (`RoundTripExactly`).

Where the text of the sources is not what was meant, the model follows the
intent: in globalfifo.c `read` takes the mutex on entry, as `write` does, and
gives it up and leaves the wait queue on every exit, and the overlapping memcpy
of line 72 copies upwards byte by byte; in i2c_bus.c line 304 tests the DONE
bit, `curr_msg0` on line 308 is `curr_msg`, `num` is a parameter of `xfer`, and
the wait before line 275 ends with completion or a time-out. The I2C hardware
is taken to raise TXW only in write transfers, RXR and RXD only in read
transfers (`Allowed`). The store's device is at least 2048 bytes longer than
the start of its last sector.

## Model

| member | source | states |
|---|---|---|
| ShellSort.InsertBack | Algorithem/sort/shellsort.c:14-21 | shifting the larger elements of a column up by one gap and dropping the saved one in keeps the column's elements, orders it up to i and moves no cell of another column |
| ShellSort.GroupSort | Algorithem/sort/shellsort.c:9-23 | the column through start ends ordered, with its own elements; every other cell is unchanged |
| ShellSort.SortForGap | Algorithem/sort/shellsort.c:29-30 | the calls for one gap sort every column separately and make the array h-ordered |
| ShellSort.GapPassKeepsOrder | Algorithem/sort/shellsort.c:9-32 | for all arrays and all gaps h and k, the calls for gap h keep a k-order that held before and establish the h-order |
| ShellSort.SortingKeepsDominance | Algorithem/sort/shellsort.c:9-23 | if each element of one column is at least the element of another column c places before it, this still holds after both are sorted |
| ShellSort.UsedGapsStayOrdered | Algorithem/sort/shellsort.c:25-32 | at every later point of every run the array is ordered for every gap used so far |
| ShellSort.RunSorts | Algorithem/sort/shellsort.c:25-32 | every run through the halving gaps ends in the sorted permutation |
| ShellSort.GapsHalve | Algorithem/sort/shellsort.c:29 | the gaps start at half the length, each is half the one before, and the last is 1 |
| ShellSort.ShellSort | Algorithem/sort/shellsort.c:25-32 | the array becomes the sorted permutation of its old contents, by a run of passes for exactly the gaps len/2, len/4, ..., 1 |
| Sorting.SortedOfUnique | Algorithem/sort/mergesort.c:44-48 | there is one sorted permutation of any input, so the three sorts, each of which leaves it, agree on every input |
| FastSort.Partition | Algorithem/sort/fastsort.c:70-89 | splits the stretch around the old first element into at-most and at-least parts, both smaller than the stretch; ends although an iteration may move neither index |
| FastSort.SortRange | Algorithem/sort/fastsort.c:65-93 | cells start..end become a sorted rearrangement of themselves, no other cell changes |
| FastSort.FastSort | Algorithem/sort/fastsort.c:95-98 | the array becomes the sorted permutation of its old contents |
| MergeSort.MergeWhileBoth | Algorithem/sort/mergesort.c:24-26 | the loop writes a beginning of the merge and leaves the rest of it to one tail |
| MergeSort.MergeInto | Algorithem/sort/mergesort.c:24-31 | with the tail copies exactly the cells start..end of temp are written, with the merge of the two stretches |
| MergeSort.MergeStep | Algorithem/sort/mergesort.c:24-39 | replacing two sorted neighbouring stretches by their merge sorts them and is a rearrangement |
| MergeSort.SortRange | Algorithem/sort/mergesort.c:11-41 | cells start..end of arr are sorted; outside them neither arr nor temp changes; inside, temp ends as a copy of arr |
| MergeSort.MergeSort | Algorithem/sort/mergesort.c:44-48 | the array becomes the sorted permutation of its old contents |
| SemProdCons.ReachableInv | Application/ipc/sem/sem.c:81-104 | in every interleaving the semaphores count waits and posts exactly, one thread at most is in the critical section, each cell holds the latest value written for it, and each value read was its cell's content at a moment within the semaphores' slack |
| SemProdCons.SlackBounds | Application/ipc/sem/sem.c:81-104 | written items never exceed consumed ones by more than nempty's initial value, nor consumed ones written ones by more than nstored's |
| SemProdCons.OneLapOld | Application/ipc/sem/sem.c:39-53 | with the program's values 1 and 1 the i-th value read is i, or exactly the previous content i-NBUFF (0 on the first lap) |
| SemProdCons.AllStale | Application/ipc/sem/sem.c:39-104 | with the program's values 1 and 1 there is a run in which every item is read one lap old |
| SemProdCons.FifoBreaks | Application/ipc/sem/sem.c:76-106 | whenever Fifo fails, a schedule of the program reads a wrong value |
| SemProdCons.FifoExactly | Application/ipc/sem/sem.c:76-106 | all interleavings deliver all items in order if and only if nitems <= 1, or nstored starts at 0 and nempty or nitems is at most NBUFF |
| SemProdCons.RunsAreBounded | Application/ipc/sem/sem.c:81-104 | every run has at most ten steps an item and has that many exactly when both threads have finished |
| SemProdCons.DeadlockFreeExactly | Application/ipc/sem/sem.c:81-104 | a state in which no thread can step is one in which both have finished, in all runs, if and only if one of the semaphores starts above 0 or there is nothing to do |
| SemProdCons.CompleteRun | Application/ipc/sem/sem.c:39-104 | a run that cannot go on has moved all items and left the semaphores at their initial values; in order when Fifo holds |
| MutexCond.ExecInv | Application/ipc/mutex_cond/mutex_cond.c:68-131 | the invariant on owners, counters, cells, printed lines and items under way holds in every state of every run, with any number of threads and with spurious wakeups |
| MutexCond.BufferWhenFree | Application/ipc/mutex_cond/mutex_cond.c:74-83 | whenever producer.mutex is free nput equals nval and each cell is 0 or its own index |
| MutexCond.LinesInOrder | Application/ipc/mutex_cond/mutex_cond.c:115-128 | printed indices only go up, each with its own value and below nitems, so none is printed twice |
| MutexCond.PrintedExactlyIfStored | Application/ipc/mutex_cond/mutex_cond.c:122 | at every test, the consumer goes on to print if and only if more values than the index whose turn it is had been stored by then |
| MutexCond.TurnOfIndex | Application/ipc/mutex_cond/mutex_cond.c:122-128 | until producer.mutex is given up, an index that was stored gets its line with its own value and its cell is cleared; otherwise lines and buffer are the old ones |
| MutexCond.PrintedOrSkipped | Application/ipc/mutex_cond/mutex_cond.c:115-128 | in every run each index from 1 to nitems-1 whose turn is over was printed or its cell was found empty at its turn, never both; before its turn it is neither |
| MutexCond.SkippedExactly | Application/ipc/mutex_cond/mutex_cond.c:115-128 | some run finds the cell of the index whose turn it is empty if and only if there are a producer and a consumer and nitems >= 2 |
| MutexCond.SkippedForEver | Application/ipc/mutex_cond/mutex_cond.c:115-128 | an index that was skipped (EmptyCellSkipped) is printed in no continuation |
| MutexCond.ItemsConserved | Application/ipc/mutex_cond/mutex_cond.c:85-116 | nready is posts minus takes and never negative; stores equal counted items plus those being fetched, ready and being announced; hence cnt <= takes <= posts <= stores |
| MutexCond.TakeFindsItem | Application/ipc/mutex_cond/mutex_cond.c:105-113 | nready is positive whenever a consumer lowers it, however it woke |
| MutexCond.MutualExclusion | Application/ipc/mutex_cond/mutex_cond.c:74-93 | no two threads are inside the section of one mutex |
| MutexCond.OverrunExactly | Application/ipc/mutex_cond/mutex_cond.c:80-82 | no run indexes past the buffer if and only if nitems <= MAXSIZE |
| MutexCond.NobodyLeftWhileAllWork | Application/ipc/mutex_cond/mutex_cond.c:85-121 | in every run, while a consumer sleeps with items ready another one is awake, unless a consumer has already returned, and then nitems were counted |
| MutexCond.AbandonedForEver | Application/ipc/mutex_cond/mutex_cond.c:86-92 | a consumer that sleeps with items ready and no other consumer at work stays asleep in every continuation without a spurious wakeup |
| MutexCond.AbandonedExactly | Application/ipc/mutex_cond/mutex_cond.c:85-121 | some run gets there if and only if there are a producer and at least two consumers and nitems <= MAXSIZE |
| MutexCond.SomeoneGoesOn | Application/ipc/mutex_cond/mutex_cond.c:72-129 | with a producer and nitems within the buffer, some thread can take a step in every reachable state, without spurious wakeups |
| HashSet.Layout | Languge/shell/safeboot/util_auth.sh:113-128 | block count, size of the last block and padded size of the level-2 file are those of the cut image |
| HashSet.ProcessHashSet | Languge/shell/safeboot/util_auth.sh:109-169 | the script's loop computes the hash of the padded block digests, or of the image when it is one block; it fails on an empty image |
| HashSet.HashOfMeans | Languge/shell/safeboot/util_auth.sh:138-168 | the result is the hash of the image when it is one block, else of a file that holds the hash of every stretch of BLOCK_SIZE bytes in order and then zeros up to a multiple of 64, and none for an empty image |
| HashSet.BlocksTile | Languge/shell/safeboot/util_auth.sh:138-159 | the blocks put together are the image; all but the last have BLOCK_SIZE bytes, none is empty |
| HashSet.Level2Aligned | Languge/shell/safeboot/util_auth.sh:122-128 | the level-2 file is the shortest multiple of 64 bytes that holds all digests |
| HashSet.SameHashExactly | Languge/shell/safeboot/util_auth.sh:109-169 | different images without a collision between their blocks or what was hashed last have one hash if and only if one is the other's level-2 file or the other with one more block of all-zero digest |
| HashSet.BindingExactly | Languge/shell/safeboot/util_auth.sh:109-169 | for all hash functions, images of m and n bytes with one hash show a collision if and only if the lengths are not confusable, so for all equal lengths; also when any two inputs of the hash function may be the collision |
| HashSet.TwinsPass | Languge/shell/safeboot/util_auth.sh:161-168 | the level-2 file of an image, and an image with a further block of all-zero digest, have its hash under every hash function |
| HashSet.Level2Twins | Languge/shell/safeboot/util_auth.sh:122-128 | for every length n of several blocks whose level-2 file has m bytes and fits one block, two images of m and n bytes have one hash and no two inputs of the hash function collide |
| HashSet.PaddedTwins | Languge/shell/safeboot/util_auth.sh:126-135 | the same for every m of an odd number of whole blocks and n up to one block longer |
| HashSet.PadImage | Languge/shell/safeboot/util_auth.sh:173-188 | the image followed by the fewest zeros that reach a multiple of the pad size; pad size 0 fails |
| HashSet.PadIdempotent | Languge/shell/safeboot/util_auth.sh:173-188 | padding a padded image changes nothing |
| HashSet.PadForgets | Languge/shell/safeboot/util_auth.sh:173-188 | two images pad alike exactly if one is the other with zeros appended short of the next multiple |
| Veeprom.OnTargetExactly | Application/ota/ota_tool/sub_src/veeprom.c:402-431 | with offset and size in int and the rest in unsigned int, all rounds of an accepted request stay in the transfer buffer, move only bytes that were asked for and find them in their place in the store, if and only if there is no round or offset and size are not negative and the last sector has a position below 4 GiB |
| Veeprom.AcceptedExactly | Application/ota/ota_tool/sub_src/veeprom.c:128-138 | is_parameter_valid lets exactly the requests pass that end in the store, whatever its sectors, if and only if the store is smaller than 2 GiB |
| Veeprom.Veeprom.WorksExactly | Application/ota/ota_tool/sub_src/veeprom.c:402-447 | a request succeeds if and only if it is accepted and none of the device calls of its rounds fails |
| Veeprom.NegativeOffset | Application/ota/ota_tool/sub_src/veeprom.c:427 | a negative offset underflows past the transfer buffer, or at the start of a sector addresses a sector before the store |
| Veeprom.NegativeSize | Application/ota/ota_tool/sub_src/veeprom.c:428-431 | with a negative size the first round moves the rest of the sector |
| Veeprom.Underflows | Application/ota/ota_tool/sub_src/veeprom.c:427 | offset -1 and size 1 are accepted and give the offset 0xffffffff in the window |
| Veeprom.LeavesTheStore | Application/ota/ota_tool/sub_src/veeprom.c:402-410 | offset -512 and size 512 are accepted and address the sector before the store |
| Veeprom.MovesTooMuch | Application/ota/ota_tool/sub_src/veeprom.c:428-434 | offset 9 and size -1 are accepted and move 503 bytes |
| Veeprom.PositionWraps | Application/ota/ota_tool/sub_src/veeprom.c:410 | for a store that starts at 4 GiB the position of its first sector is 0 |
| Veeprom.RoundsCoverAll | Application/ota/ota_tool/sub_src/veeprom.c:402-404 | the rounds of a request in the store deal with all of it, so the loops end with size 0, also for size 0 |
| Veeprom.Veeprom.Read | Application/ota/ota_tool/sub_src/veeprom.c:302-365 | delivers the addressed bytes of the store, up to the round of the first failing call; the device is unchanged; a refused request changes nothing |
| Veeprom.Veeprom.Write | Application/ota/ota_tool/sub_src/veeprom.c:387-447 | the device afterwards is the old one with exactly the addressed bytes replaced, although each round rewrites 2048 bytes; on a failing call the bytes of the rounds before it are replaced and no others |
| Veeprom.CoveredCutAtSector | Application/ota/ota_tool/sub_src/veeprom.c:427-431 | what a failing call leaves done is nothing, everything, or everything up to the end of a sector |
| Veeprom.Veeprom.Clear | Application/ota/ota_tool/sub_src/veeprom.c:461-513 | the same with zeros |
| Veeprom.Veeprom.Format | Application/ota/ota_tool/sub_src/veeprom.c:297-300 | the first 256 bytes of the store become zero and nothing else changes, or, if a call fails, nothing changes at all |
| Veeprom.SpliceWindow | Application/ota/ota_tool/sub_src/veeprom.c:415-442 | writing back a whole window with a patch in it changes just the patch |
| Veeprom.Veeprom.WriteThenRead | Application/ota/ota_tool/sub_src/veeprom.c:302-447 | a read after a write of the same range gives what was written |
| Veeprom.Veeprom.History | Application/ota/ota_tool/sub_src/veeprom.c:387-513 | any sequence of writes and clears, refused and failing ones among them, leaves the device that applying their effects in order gives |
| Veeprom.DisjointOpsCommute | Application/ota/ota_tool/sub_src/veeprom.c:402-447 | anywhere in a history, two operations on disjoint ranges can be exchanged |
| Veeprom.LastWriteWins | Application/ota/ota_tool/sub_src/veeprom.c:387-513 | after any history, which is what History leaves, each byte of the store is the one last put there, the old one if there was none, and bytes before the store are as they were |
| Veeprom.FieldsIndependent | Application/ota/ota_tool/include/veeprom.h:14-51 | a history that writes and clears only inside other fields leaves a field as it was |
| GlobalFifo.Device.ShiftDown | process_schedule/fork/globalfifo.c:72 | the upward byte copy moves the remaining bytes to the front although source and target overlap |
| GlobalFifo.Device.TakeBytes | process_schedule/fork/globalfifo.c:62-77 | up to count bytes leave at the front, the others stay in order; a failing copy takes nothing |
| GlobalFifo.Device.PutBytes | process_schedule/fork/globalfifo.c:121-142 | as many bytes as there is room for join at the back; a copy that fails part way leaves the queue as it was |
| GlobalFifo.Device.Ioctl | process_schedule/fork/globalfifo.c:173-191 | FIFO_CLEAR empties the queue and zeroes the memory, any other command is refused without effect |
| GlobalFifo.Device.Poll | process_schedule/fork/globalfifo.c:153-171 | readable exactly when the queue holds a byte, writable exactly when it has room, which is when a read, a write would not have to wait |
| GlobalFifo.ExecInv | process_schedule/fork/globalfifo.c:33-191 | mutual exclusion, the queue of an atomic bounded fifo, and a reason to sleep for every sleeper hold in every state of every run |
| GlobalFifo.QueueConserved | process_schedule/fork/globalfifo.c:42-142 | bytes accepted since the last clear are those delivered, in order, followed by the queue, which never exceeds GLOBALFIFO_SIZE |
| GlobalFifo.DeliveryIsNextStretch | process_schedule/fork/globalfifo.c:62-77 | each delivery is the next stretch of the accepted bytes, so each byte goes to one reader |
| GlobalFifo.OneHolder | process_schedule/fork/globalfifo.c:97-144 | at most one thread is between taking and giving up the mutex |
| GlobalFifo.Progress | process_schedule/fork/globalfifo.c:42-60 | a call that is not asleep can be brought forward, by itself or by the mutex owner |
| GlobalFifo.NonblockNeverSleeps | process_schedule/fork/globalfifo.c:44-48 | in every reachable state a thread with a nonblocking call is awake and not on the way to sleep |
| GlobalFifo.BeginsCall | process_schedule/fork/globalfifo.c:97-121 | a call begins by taking the mutex, waits for it if taken, and comes to its copy if its condition holds |
| GlobalFifo.WaitsOrReturns | process_schedule/fork/globalfifo.c:42-53 | a nonblocking call that would have to wait returns -EAGAIN in two steps with the queue as it was; a blocking one gives up the mutex and sleeps |
| GlobalFifo.AfterSchedule | process_schedule/fork/globalfifo.c:53-59 | a signalled sleeper returns -ERESTARTSYS, one that was woken takes the mutex and tests again, one that is still asleep does not go on |
| GlobalFifo.FaultReturns | process_schedule/fork/globalfifo.c:65-69 | a failing copy returns -EFAULT and leaves the queue as it was |
| GlobalFifo.ReadEnds | process_schedule/fork/globalfifo.c:62-78 | a read takes min(count, current_len) bytes at the front, wakes all writers and nobody else, and returns that number |
| GlobalFifo.WriteEnds | process_schedule/fork/globalfifo.c:121-149 | a write adds as many bytes as there is room for, wakes all readers and nobody else, and returns that number |
| GlobalFifo.ClearEnds | process_schedule/fork/globalfifo.c:179-190 | FIFO_CLEAR empties the queue, wakes nobody and returns 0 |
| GlobalFifo.ReturnsAddUp | process_schedule/fork/globalfifo.c:33-150 | in every run the counts returned to a thread, with the one a call at its end is about to return, are the bytes that went to it and came from it |
| GlobalFifo.ExecReturnsRight | process_schedule/fork/globalfifo.c:33-191 | in every run every call returns a count it asked for at most, -EAGAIN only if nonblocking, -ERESTARTSYS only if blocking, or -EFAULT |
| GlobalFifo.SleepersJustified | process_schedule/fork/globalfifo.c:42-60 | with the mutex free a sleeping reader finds the queue empty, a sleeping writer finds it full or has slept through a clear |
| GlobalFifo.WithoutClears | process_schedule/fork/globalfifo.c:42-119 | in no run without FIFO_CLEAR, whenever the mutex is free, does anyone sleep whose condition has come true, or do a reader and a writer sleep at once |
| GlobalFifo.ClearStrands | process_schedule/fork/globalfifo.c:179-185 | a run in which a clear leaves a writer asleep on an empty queue, and one that goes on until a reader sleeps beside it |
| GlobalFifo.StrandedExactly | process_schedule/fork/globalfifo.c:100-119 | some run leaves a sleeper whose condition has come true, and some run a reader and a writer asleep at once, with the mutex free, if and only if two threads use the device |
| BinaryTree.RoundTripExactly | Algorithem/tree/binary-tree/basic/binary.c:32-52 | building inverts marked printing, whatever follows in the stream, exactly for trees without a label -1 |
| BinaryTree.ParseReadsMarked | Algorithem/tree/binary-tree/basic/binary.c:32-52 | what is read is the marked form of the tree that is built |
| BinaryTree.ReadsFirstExcess | Algorithem/tree/binary-tree/basic/binary.c:32-52 | a tree is found, and n elements read, exactly if the shortest beginning with one marker more than values has length n |
| BinaryTree.TreeAhead | Algorithem/tree/binary-tree/basic/binary.c:34-39 | what the builders ask of the stream holds exactly if such a stretch exists at the cursor |
| BinaryTree.Stream.PreorderCreate | Algorithem/tree/binary-tree/basic/binary.c:32-52 | builds the tree at the cursor from fresh nodes, none of them shared, and moves the cursor just past it |
| BinaryTree.Stream.PostorderCreate | Algorithem/tree/binary-tree/basic/binary.c:55-75 | from the same stretch builds the mirror image, sharing no nodes either |
| BinaryTree.BuildersMirror | Algorithem/tree/binary-tree/basic/binary.c:32-158 | the second builder's postorder is the reverse of the values read, its inorder the reverse of the first one's, depth and leaf totals agree |
| BinaryTree.PreorderTraverse | Algorithem/tree/binary-tree/basic/binary.c:80-93 | prints the label of every node once, in the order of the paths to them in which a node comes before its left and that before its right subtree |
| BinaryTree.MiddorderTraverse | Algorithem/tree/binary-tree/basic/binary.c:97-111 | the same with a node between its left and its right subtree |
| BinaryTree.PostorderTraverse | Algorithem/tree/binary-tree/basic/binary.c:114-128 | the same with a node after its left and its right subtree |
| BinaryTree.Deep | Algorithem/tree/binary-tree/basic/binary.c:131-142 | the number of nodes on a longest path, 0 for no tree |
| BinaryTree.LeafCounter.LeafCount | Algorithem/tree/binary-tree/basic/binary.c:145-158 | adds the number of leaves to a counter that earlier calls have left where it is |
| BinaryTree.LeavesCounted | Algorithem/tree/binary-tree/basic/binary.c:145-158 | the number added is that of the paths to nodes without children |
| I2cBus.RecordsRight | device_driver/i2c/bus/i2c_bus.c:219-244 | in every run record j has address and length of message j; READ and INTR are set exactly for reads, INIT exactly for writes, INTD exactly for the last message, ST and I2CEN always and no other bit; nothing else is written but the final clear |
| I2cBus.StartKeeps | device_driver/i2c/bus/i2c_bus.c:219-244 | starting the next message, which is what StartTransfer does, keeps: messages programmed once and in order, nothing of the new one sent |
| I2cBus.I2cDev.FillTxfifo | device_driver/i2c/bus/i2c_bus.c:190-202 | sends exactly as many bytes of the current message as the status words in a row allow |
| I2cBus.I2cDev.DrainRxfifo | device_driver/i2c/bus/i2c_bus.c:204-217 | stores exactly as many received bytes as the status words in a row allow |
| I2cBus.I2cDev.Isr | device_driver/i2c/bus/i2c_bus.c:290-357 | one interrupt changes the fields as AfterIsr says, the step that the seven rows below describe by the status word |
| I2cBus.IsrOnError | device_driver/i2c/bus/i2c_bus.c:297-302 | CLKT or ERR ends the transfer whatever else is set: -EREMOTEIO with ERR, else -EIO |
| I2cBus.IsrOnReadDone | device_driver/i2c/bus/i2c_bus.c:304-317 | DONE in a read takes the bytes that are in the FIFO; the transfer has succeeded if and only if they were as many as wanted and no more are there, else -EIO |
| I2cBus.IsrOnWriteDone | device_driver/i2c/bus/i2c_bus.c:304-317 | DONE in a write succeeds if and only if everything was sent and nothing can be received, else -EIO |
| I2cBus.IsrOnTxwTooMany | device_driver/i2c/bus/i2c_bus.c:320-326 | TXW with nothing left to send ends in -EIO |
| I2cBus.IsrOnTxw | device_driver/i2c/bus/i2c_bus.c:328-334 | TXW sends what the status words allow and starts the next message, with its right record, if and only if this one is used up and one is waiting |
| I2cBus.IsrOnRxr | device_driver/i2c/bus/i2c_bus.c:338-348 | RXR takes what the status words allow, or ends in -EIO if no byte is wanted any more |
| I2cBus.IsrOnOther | device_driver/i2c/bus/i2c_bus.c:349 | any other status word changes nothing |
| I2cBus.I2cDev.Xfer | device_driver/i2c/bus/i2c_bus.c:255-287 | refuses an early read message untouched; otherwise returns what the run of interrupts amounts to, with the register cleared on a time-out; an empty list times out |
| I2cBus.IsrKeeps | device_driver/i2c/bus/i2c_bus.c:290-357 | every interrupt keeps: messages programmed once and in order, sent and received bytes a beginning of what should cross |
| I2cBus.ProgrammingInOrder | device_driver/i2c/bus/i2c_bus.c:219-244 | in every run the programming is a beginning of the message list, at most one start a message; consumed plus remaining bytes are the current message |
| I2cBus.OnlyLastAsksDone | device_driver/i2c/bus/i2c_bus.c:223-238 | INTD is set for the last message and no other |
| I2cBus.SuccessMeansCrossed | device_driver/i2c/bus/i2c_bus.c:304-334 | when a transfer ends with msg_err 0 every message was programmed and every byte crossed exactly once and in order |
| I2cBus.EmptyMessageSkipsRest | device_driver/i2c/bus/i2c_bus.c:313-316 | with an empty message before the last there is hardware behaviour that ends in success with messages never programmed |
| I2cBus.SuccessExactly | device_driver/i2c/bus/i2c_bus.c:190-357 | success means everything crossed, for all hardware behaviour, if and only if no message before the last is empty |
| I2cBus.SuccessPossible | device_driver/i2c/bus/i2c_bus.c:255-357 | for every list with no empty message and no read before the last, a trailing read included, there is hardware behaviour for which the number of messages is returned |
| I2cBus.PossibleExactly | device_driver/i2c/bus/i2c_bus.c:255-357 | some hardware behaviour takes every message across and is reported as success if and only if no message before the last is empty |
| I2cBus.ErrorKind | device_driver/i2c/bus/i2c_bus.c:281-302 | in every run, the transfer returns -EREMOTEIO if and only if one of its interrupts reads a status word with the ERR bit |
| I2cClock.CalcDividerExactly | device_driver/i2c/bus/i2c_bus.c:103-113 | for all 64-bit rates the result is the least even divider that suffices, or -EINVAL when none is in range, if and only if the sum does not wrap and the 32-bit cut does no harm |
| I2cClock.OverflowExample | device_driver/i2c/bus/i2c_bus.c:103-113 | a request of 1 Hz from a parent of 2^32 + 4 Hz gives divider 4 instead of -EINVAL |
| I2cClock.RoundRateIsBest | device_driver/i2c/bus/i2c_bus.c:139-144 | for valid requests the rounded rate never exceeds the request and is the highest rate below it that an even divider gives |
| I2cClock.RoundRateIdempotent | device_driver/i2c/bus/i2c_bus.c:139-144 | asking for the rounded rate gives the same divider and the same rate |
| I2cClock.RoundRateBestExactly | device_driver/i2c/bus/i2c_bus.c:139-144 | for all 64-bit rates the answer is the highest reachable rate not above the request if and only if the parent is 0, or such a rate exists and the sum does not wrap or the parent is 2 Hz |
| I2cClock.RefusedExactly | device_driver/i2c/bus/i2c_bus.c:103-113 | for all 64-bit rates, when -EINVAL is returned |
| I2cClock.RefusedRoundsTo | device_driver/i2c/bus/i2c_bus.c:139-144 | a refused request is still answered with a rate, the parent divided by the error code: 1 Hz for parents up to 2^32 - 22 Hz, 0 when that sum wraps |
| I2cClock.ClockTimeoutSaturates | device_driver/i2c/bus/i2c_bus.c:131-134 | the CLKT value is 35 ms in ticks cut at 0xffff, saturating at exactly the right rate |
| I2cClock.ClockTimeoutMonotone | device_driver/i2c/bus/i2c_bus.c:131-134 | a higher rate never gives a smaller CLKT value, and none exceeds 0xffff |
| I2cClock.ClockRegisters.SetRate | device_driver/i2c/bus/i2c_bus.c:115-137 | writes the divider and CLKT, or returns -EINVAL and writes nothing |
| I2cClock.ClockRegisters.RecalcRate | device_driver/i2c/bus/i2c_bus.c:146-152 | after a valid SetRate it agrees with round_rate |

## Left out

- SetRate: does not model the DEL register, because lines 127-129 of i2c_bus.c do not say what is written to it.
- Write: like Read and Clear, does not model requests outside MayAsk: those whose sums leave int have no meaning in C, and what the accepted ones outside InRange do beyond their first bad round depends on memory outside the program's buffers; OnTargetExactly says exactly which they are.
- Stores that end above the first 4 GiB of the device, in the methods; OnTargetExactly takes them in.
- PadImage: pad sizes below 0 are not modelled, because the shell's remainder makes them meaningless.
- StoreWindow: a device write that fails is taken to write nothing, because what a failed write leaves behind depends on the device.
- Xfer: lets no interrupt come for an empty message list, because nothing has been started on the bus.
- PreorderCreate: asks for a whole tree at the cursor, because the code reads past the end of the array otherwise.
- Partition: the printf and usleep calls of fastsort.c are not modelled.
- printf and printk as effects, except for the values consumers and traversals print.
- malloc failure, and overflow of int array contents.
- The per-thread item counter of produce in mutex_cond.c, and which threads main starts: any sets of threads are allowed.
- fasync notification, open and release of globalfifo.c.
- Postorder_Free_BinaryTree, and the debug structures, finish_transfer and probing of i2c_bus.c.
- I2C interrupts that arrive after completion.
- process_hash_set_lv3 and encryption in util_auth.sh; SHA-256 itself is not part of this model.
- Boot modes other than eMMC, partition lookup and veeprom_dump in veeprom.c.
- Bubble, insertion and selection sort, lists, sockets, pipes, device registration, scripts: easier variants or plumbing.
