# Linux system programming exercises, modelled in Dafny

This project models the computational core of a set of C exercises in Linux
system programming and proves properties of that model:

- **Chat servers (hw10).** The client slot table `Client[MAX_CLIENT]`, shared by the single-threaded `select` server and the thread-per-client server. It covers:
  - slot allocation: lowest free slot first, with a "Server is full" refusal;
  - the highest descriptor `select` watches;
  - broadcast to every other in-use slot, in slot order;
  - what a failed send does: it frees that recipient in the `select` server and ends the process in the threaded server;
  - log-in and log-out;
  - the shutdown sweep.

  Socket results are inputs to the model: the byte count of each `recv`, and one success flag per recipient for each `send`.
- **Producer/consumer (hw08).** The bounded ring buffer (`buf`, `in`, `out`, `counter`) that every variant shares. It is driven by:
  - the guarded loops of the mutex/condition-variable version (prodcons_m.c), where each store or take runs under the mutex;
  - the semaphore-bracketed loops of the semaphore versions, whose wait/post order is recorded as the operations happen.

  The busy-waiting and shared-memory versions use the same buffer steps, but their loops are only claimed under the atomicity assumption given in "Left out".

  The scheduler's choices and the `rand()` results are inputs. The proofs show that:
  - each run completes;
  - items are consumed in the order they were produced;
  - the semaphores end where they started.
- **User-level semaphore (hw08/semlib2.c)** as a counter with `sem_init`, `sem_wait`, `sem_trywait`, `sem_post` and `sem_getvalue`.
- **Dining philosophers (hw08/dining2.c).** `Test`, `PickUp` and `PutDown` on the state table. They are first defined as functions, and these functions are proved never to let two neighbours eat at once.
- **String routines (hw02/string.c).** `strlen`, `strcpy`, `strcat` and `strcmp` on NUL-terminated character arrays, each in its pointer and its index version.
- **Text utilities (hw03).**
  - `to_uppercase` (midterm/upper.c:4-11 holds the same routine, character for character);
  - tab expansion at line start and the `.t` file name (tab.c);
  - halving a file (split.c) and concatenating two files (merge.c), with the round trip between them.
- **File mode bits (hw04).**
  - the `ls -l` permission string (mylsl.c);
  - the file-type classification chain (stat.c);
  - the two new-mode expressions (chmod.c).
- **Threaded sum (hw05/tadd.c).** Two threads add 1..50 and 51..100 into separate globals.

Each source file's form is kept:
- Code that updates state in place becomes a class or a method with `modifies`. This covers:
  - the slot table;
  - the ring buffer;
  - the semaphores;
  - the dining table;
  - the character arrays;
  - the file streams;
  - the sums.
- Its loops carry invariants.
- Pure computations become functions. These are the mode strings, the classification and the chmod modes.
- Where a method rewrites state, it is tied to a specification function, and the properties are proved about that function.

## Model

| member | source | states |
|---|---|---|
| ChatCommon.FormatLine | hw10/chats_select.c:70-73 | the line is the uid, then "> ", then the message; when the inputs fit, line plus terminator fit the MAX_BUF+MAX_ID buffer |
| ChatCommon.RecipientsMembers | hw10/chats_select.c:75-76 | a slot receives a broadcast exactly when it is in use and is not the sender |
| ChatCommon.RecipientsAscending | hw10/chats_select.c:75 | recipients are visited in strictly ascending slot order, so none receives twice |
| ChatCommon.RecipientsExcludeSender | hw10/chats.c:110 | the sender never receives its own line; an in-use sender is the only in-use slot left out |
| ChatCommon.RecipientsOneFewer | hw10/chats.c:108-110 | excluding an in-use sender removes exactly one slot from the recipient list |
| ChatCommon.RecipientsIgnoreOutside | hw10/chats_select.c:198-200 | a sender index outside the table excludes nobody (so the shutdown sweep visits every in-use slot) |
| ChatCommon.FirstFree | hw10/chats.c:72-82 | the lowest free slot with all earlier slots in use, or -1 exactly when every slot is in use |
| ChatCommon.SlotTable.constructor | hw10/chats.c:50-59 | the table starts with every slot free, descriptor 0 and empty id |
| ChatSelect.InitSlots | hw10/chats_select.c:168-172 | after initialisation every slot is free, has descriptor -1 and an empty id |
| ChatSelect.MaxFd | hw10/chats_select.c:180-189 | the result bounds the listening socket and every in-use slot's socket and is one of them |
| ChatSelect.Accept | hw10/chats_select.c:209-231 | the lowest free slot gets the new socket; a failed id read frees it again; with no free slot the table is unchanged and the new socket is refused |
| ChatSelect.Broadcast | hw10/chats_select.c:68-84 | the line goes to exactly the other in-use slots in slot order; a slot stays in use exactly when it was in use and is the sender or its send succeeded |
| ChatSelect.ServeReadable | hw10/chats_select.c:235-254 | a slot is read exactly when it is in use at its turn and readable; a slot stays in use exactly when neither its own read nor any broadcast of the pass closed it |
| ChatSelect.Shutdown | hw10/chats_select.c:98-109 | the listening socket is closed first, then every in-use slot's socket in slot order |
| ChatThreads.GetID | hw10/chats.c:72-82 | the lowest free slot is marked in use and returned; -1 with no change when all are taken |
| ChatThreads.AcceptClient | hw10/chats.c:277-284 | on -1 the new socket is closed and nothing recorded; otherwise only that slot's descriptor is set |
| ChatThreads.Login | hw10/chats.c:148-152 | a failed id read ends the process; a positive one stores the id; a zero-byte read changes nothing |
| ChatThreads.SendToOtherClients | hw10/chats.c:97-118 | the delivered slots are a prefix of the recipient list, each with a successful send; the process survives exactly when every recipient was reached, and otherwise the next recipient's send failed |
| ChatThreads.PrefixOfRecipients | hw10/chats.c:108-110 | recipients among the first i slots come first in the list, followed by slot i when it is a recipient |
| ChatThreads.RecipientsSplit | hw10/chats.c:108-110 | the recipient list of the table extends that of any prefix of it |
| ChatThreads.Receive | hw10/chats.c:154-177 | a failed read ends the process; a zero-byte read frees the slot and sends the log-out notice to the remaining slots; a message is relayed and the table is unchanged; in both sending cases every delivered slot had a successful send, and an early exit means the next recipient's send failed |
| ChatThreads.Shutdown | hw10/chats.c:192-218 | the listening socket is closed first, then every in-use slot is visited in slot order and its socket closed |
| Ring.ItemValue | hw08/prodcons_m.c:133 | an item is a multiple of 10000 between 0 and 990000 |
| Ring.BoundedBuffer.constructor | hw08/prodcons_s.c:30 | a new buffer is empty with in = out = counter = 0 |
| Ring.BoundedBuffer.CounterIsSize | hw08/prodcons_m.c:125-130 | the counter always equals the number of items held |
| Ring.BoundedBuffer.Store | hw08/prodcons_m.c:134-136 | storing into a non-full buffer appends the item at the back and keeps the buffer invariant |
| Ring.BoundedBuffer.Take | hw08/prodcons_m.c:195-197 | taking from a non-empty buffer returns the oldest item and removes it, keeping the invariant |
| Ring.WrapOnce | hw08/prodcons_m.c:135 | the index step `(i + 1) % MAX_BUF` wraps to 0 exactly at the end |
| Ring.StoreShape | hw08/prodcons_t.c:123-125 | writing the slot after the queue extends the queue by that item |
| Ring.StoreWrap | hw08/prodcons_m.c:135 | advancing `in` by one keeps in == (out + counter) % MAX_BUF after a store |
| Ring.TakeWrap | hw08/prodcons_m.c:196 | advancing `out` by one and decrementing the count keeps `in` consistent after a take |
| Ring.TakeShape | hw08/prodcons_t.c:168-170 | advancing the out index drops the first item of the queue |
| ProdCons.ProduceItem | hw08/producer.c:53-56 | the produced item is (rand() % 100) * 10000 and joins the back of the buffer |
| ProdCons.ConsumeItem | hw08/consumer.c:56-58 | the consumed item is the oldest one and leaves the buffer |
| ProdCons.GuardedStep | hw08/prodcons_m.c:125-136 | one scheduled iteration of either guarded side keeps the buffer invariant and the production-order relation, and always makes progress |
| ProdCons.RunGuarded | hw08/prodcons_m.c:113-215 | under any schedule both sides finish NLOOPS iterations and the items are consumed in production order |
| ProdCons.InitSemaphores | hw08/prodcons_s.c:216-227 | Empty starts at MAX_BUF, Full at 0 and Mutex at 1 |
| ProdCons.Trace.constructor | hw08/prodcons_s.c:119-145 | the record of semaphore operations starts empty |
| ProdCons.WaitOn | hw08/prodcons_s.c:120-127 | a wait that does not block takes one unit and is appended to the trace |
| ProdCons.PostOn | hw08/prodcons_s.c:135-142 | a post adds one unit and is appended to the trace |
| ProdCons.StoreLocked | hw08/prodcons_s.c:128-133 | the store is entered only with the mutex taken; it appends the item to the buffer and to the trace |
| ProdCons.TakeLocked | hw08/prodcons_s.c:186-191 | the take is entered only with the mutex taken; it removes the oldest item and records it in the trace |
| ProdCons.ProduceWithSemaphores | hw08/prodcons_s.c:119-145 | the trace grows by wait Empty, wait Mutex, store, post Mutex, post Full, in that order, as the operations run; the store happens with the mutex taken; the Empty/Full/Mutex protocol is kept |
| ProdCons.ConsumeWithSemaphores | hw08/prodcons_s.c:177-202 | the trace grows by wait Full, wait Mutex, take, post Mutex, post Empty, in that order, as the operations run; the take happens with the mutex taken; the protocol is kept |
| ProdCons.SemaphoreStep | hw08/producer_s.c:60-88 | one scheduled iteration of either side keeps the protocol and the production-order relation |
| ProdCons.RunWithSemaphores | hw08/consumer_s.c:64-105 | both sides finish, items are consumed in production order, and the semaphores end at MAX_BUF, 0 and 1 |
| Semaphore.Sem.constructor | hw08/semlib2.c:57-59 | the value is the initial value |
| Semaphore.Sem.Init | hw08/semlib2.c:44-60 | a process-shared request fails with -1 and no change; otherwise the value is set and 0 returned |
| Semaphore.Sem.Wait | hw08/semlib2.c:78-97 | once the value is non-zero, one unit is taken |
| Semaphore.Sem.TryWait | hw08/semlib2.c:115-131 | -1 with no change at 0; otherwise one unit is taken and 0 returned |
| Semaphore.Sem.Post | hw08/semlib2.c:149-167 | one unit is added; waiters are signalled exactly when the value was 0 |
| Semaphore.Sem.GetValue | hw08/semlib2.c:185-189 | the current value, with no change |
| Dining.Left | hw08/dining2.c:11 | LEFT(i) is another seat of the table |
| Dining.Right | hw08/dining2.c:12 | RIGHT(i) is another seat of the table |
| Dining.NeighboursInverse | hw08/dining2.c:11-12 | LEFT and RIGHT undo each other and give two different seats |
| Dining.SafeBothSides | hw08/dining2.c:80-91 | in a safe table an eater's neighbours on both sides are not eating |
| Dining.TestStepEffect | hw08/dining2.c:80-91 | Test changes only State[id], only from HUNGRY to EATING and only when neither neighbour eats; safety is kept |
| Dining.PickUpStepEffect | hw08/dining2.c:94-114 | PickUp leaves id eating exactly when neither neighbour eats, hungry otherwise; nobody else changes; safety is kept |
| Dining.PutDownStepEffect | hw08/dining2.c:117-133 | PutDown leaves id thinking; a hungry neighbour whose other neighbour is not eating starts eating; nobody else changes except to start eating; safety is kept |
| Dining.Table.constructor | hw08/dining2.c:164-174 | everyone thinks, every philosopher semaphore is 0 and the mutex is 1 |
| Dining.Table.Test | hw08/dining2.c:80-91 | the table becomes TestStep of the old table; the philosopher's semaphore is posted exactly when it may eat |
| Dining.Table.PickUp | hw08/dining2.c:94-114 | the table becomes PickUpStep of the old table; `Philosopher[id]` is posted once if id got to eat and no semaphore changes otherwise, so the wait that follows does not block exactly when id got to eat |
| Dining.Table.AwaitForks | hw08/dining2.c:110-113 | the wait on the philosopher's semaphore takes one unit |
| Dining.Table.PutDown | hw08/dining2.c:117-133 | the table becomes PutDownStep of the old table and id is thinking; the semaphore of each philosopher that starts eating is posted once and no other changes |
| CString.StrLen | hw02/string.c:15-23 | the length is the index of the first NUL |
| CString.Str | hw02/string.c:15-23 | the string held has no NUL and the buffer's length |
| CString.StrLenAt | hw02/string.c:38-45 | a NUL with none before it fixes the length |
| CString.StrLenP | hw02/string.c:15-23 | returns the index of the first NUL |
| CString.StrLenA | hw02/string.c:38-45 | returns the index of the first NUL |
| CString.StrCpyP | hw02/string.c:62-68 | dst holds src's string and terminator; bytes after them are untouched |
| CString.StrCpyA | hw02/string.c:83-90 | dst holds src's string and terminator; bytes after them are untouched |
| CString.StrCatP | hw02/string.c:107-116 | dst's string becomes its old string followed by src's; bytes after the new terminator are untouched |
| CString.StrCatA | hw02/string.c:133-144 | dst's string becomes its old string followed by src's; bytes after the new terminator are untouched |
| CString.CatResult | hw02/string.c:140-143 | old string, then src's string, then NUL make the concatenation |
| CString.CompareZeroIffEqual | hw02/string.c:164-178 | strcmp_p's result is 0 exactly for equal strings |
| CString.CompareAntisymmetric | hw02/string.c:164-178 | swapping the arguments negates the result, which is -1, 0 or 1 |
| CString.CompareNegativeIffPrecedes | hw02/string.c:164-178 | the result is -1 exactly when dst is a proper prefix of src or smaller at the first difference |
| CString.CompareStep | hw02/string.c:172-175 | equal characters at the current index pass the decision to the next one |
| CString.StrCmpP | hw02/string.c:164-178 | returns the three-way comparison of the two strings |
| CString.StrCmpA | hw02/string.c:195-207 | returns what the index loop computes, which stops at dst's terminator |
| CString.StrCmpAPrefixCounterexample | hw02/string.c:195-207 | "ab" against "abc" gives 0 although the strings differ |
| CString.CompareAsWrittenAgrees | hw02/string.c:195-207 | strcmp_a agrees with strcmp_p except when dst is a proper prefix of src, where it gives 0 |
| CString.StrCmpAFixed | hw02/string.c:195-207 | the corrected index loop returns the three-way comparison |
| Upper.UppercaseAt | hw03/upper.c:22-24 | each 'a'..'z' becomes the matching 'A'..'Z' and every other character is unchanged, length kept |
| Upper.UppercaseIdempotent | hw03/upper.c:20-27 | upper-casing twice is upper-casing once |
| Upper.UppercaseKeepsNul | hw03/upper.c:21 | no NUL is introduced, so the terminator stays put |
| Upper.ToUppercase | hw03/upper.c:20-27 | the string becomes its upper-cased form; the terminator and the bytes after it stay |
| Tab.LeadingTabs | hw03/tab.c:44 | counts the tabs before the first other character |
| Tab.Spaces | hw03/tab.c:45-48 | four spaces per tab |
| Tab.ExpandMidLine | hw03/tab.c:50-53 | after the first non-tab character, the rest of the line is copied unchanged |
| Tab.ExpandLine | hw03/tab.c:43-57 | a line's leading tabs become four spaces each; the rest, later tabs included, is copied |
| Tab.ExpandLines | hw03/tab.c:54-55 | a newline restores line-start state, so each line converts on its own |
| Tab.LineLength | hw03/tab.c:43-57 | a converted line is its length plus three per leading tab |
| Tab.ConvChar | hw03/tab.c:44-55 | one character read: four spaces for a tab at line start (flag kept), otherwise the character itself, with the flag set exactly when it is a newline |
| Tab.ExpandStep | hw03/tab.c:42-57 | converting from a position is one character's output followed by the conversion of the rest |
| Tab.ConvText | hw03/tab.c:42-57 | the output is the conversion of the whole input from line start |
| Tab.DestName | hw03/tab.c:27-36 | the destination name is the source name followed by ".t" in a 40-byte buffer |
| Tab.Conv | hw03/tab.c:23-61 | no output when the source does not open; no output when the destination does not open; otherwise the converted text under the ".t" name |
| Tab.ConvOrder | hw03/tab.c:65-67 | arguments are converted from last to first, the program name excluded |
| Tab.ConvOrderCoversArguments | hw03/tab.c:65-67 | every argument but the program name is converted exactly once |
| SplitMerge.InFile.Read | hw03/split.c:74 | up to count bytes from the position, fewer only at end of file, and the position moves past them |
| SplitMerge.OutFile.Write | hw03/split.c:75 | the chunk is appended to the file |
| SplitMerge.FileSize | hw03/split.c:35-44 | returns the file's length and restores the position |
| SplitMerge.Split | hw03/split.c:70-81 | dst1 gets the first floor(n/2) bytes and dst2 the rest; first-loop chunks are 1..MAX_BUF bytes |
| SplitMerge.CopyStep | hw03/merge.c:49-51 | writing the chunk just read and reading the next keeps what was written equal to what was read |
| SplitMerge.CopyChunks | hw03/merge.c:49-51 | all of the source is appended in chunks of 1..MAX_BUF bytes |
| SplitMerge.Merge | hw03/merge.c:49-55 | the destination is src1 followed by src2; all src1 chunks are written before any src2 chunk |
| SplitMerge.SplitThenMerge | hw03/merge.c:49-55 | merging split's two outputs in order gives back the original bytes |
| Tadd.SumRangeClosedForm | hw05/tadd.c:17-20 | the loop's sum has Gauss's closed form |
| Tadd.SumRangeSplit | hw05/tadd.c:76 | the two halves add up to the whole range |
| Tadd.Sums.SumFirstHalf | hw05/tadd.c:17-23 | sum1 grows by 1+...+50 and sum2 is untouched |
| Tadd.Sums.SumSecondHalf | hw05/tadd.c:34-40 | sum2 grows by 51+...+100 and sum1 is untouched |
| Tadd.RunThreads | hw05/tadd.c:50-76 | in either thread order sum1 is 1275, sum2 is 3775 and the total is 5050 |
| StatBits.KindsExclusive | hw04/stat.c:53-66 | a mode has at most one file type |
| LsPermissions.PermissionString | hw04/mylsl.c:24-35 | eleven characters, the last a space |
| LsPermissions.TypeColumn | hw04/mylsl.c:25 | column 0 is 'd' exactly for directories; a symbolic link shows '-' |
| LsPermissions.PermissionColumn | hw04/mylsl.c:26-34 | column k shows the k-th letter of "rwxrwxrwx" exactly when its bit is set |
| LsPermissions.FlagDeterminesBit | hw04/mylsl.c:26-34 | equal columns mean equal bits |
| LsPermissions.ColumnBitsCoverMask | hw04/mylsl.c:26-34 | the nine columns cover the permission mask |
| LsPermissions.OnlyTypeAndPermissionBitsShown | hw04/mylsl.c:24-35 | the string depends only on the directory test and the nine permission bits |
| LsPermissions.PermissionStringInjective | hw04/mylsl.c:24-35 | different permission bits give different strings |
| StatType.ClassifyByKind | hw04/stat.c:53-66 | a mode of a kind gets that kind's name, and only that name |
| StatType.UnassignedIffNoKind | hw04/stat.c:53-67 | no name is assigned exactly when the mode has none of the seven types |
| StatType.Assignments | hw04/stat.c:47-66 | one assignment per argument |
| StatType.AssignmentsAt | hw04/stat.c:47-66 | the assignment for an argument is the chain's result for its lstat outcome, nothing when lstat failed |
| StatType.LatestIsLastNamed | hw04/stat.c:44 | the one `mode` variable holds the name assigned most recently, and is unassigned exactly when no argument was classified |
| StatType.ReportedName | hw04/stat.c:53-67 | an argument prints its own type name when the chain matched, otherwise the value `mode` held before it |
| StatType.CarriedAcrossArguments | hw04/stat.c:44-67 | a regular file followed by a mode of no known type prints "regular" twice |
| StatType.DescribeOne | hw04/stat.c:48-67 | a failed lstat is reported and leaves `mode` alone; otherwise `mode` takes the chain's name if it matched and is printed |
| StatType.DescribeAll | hw04/stat.c:44-67 | every argument whose lstat fails is skipped; every other one prints the value `mode` holds after that argument's chain |
| ChmodModes.BarMode | hw04/chmod.c:42 | bar loses group-write and gains set-user-ID |
| ChmodModes.BarModeKeepsOtherBits | hw04/chmod.c:42 | every other bit of bar's mode is kept |
| ChmodModes.BarModeKeepsOwnerExecute | hw04/chmod.c:42 | owner-execute of bar is kept |
| ChmodModes.FooModeIs0644 | hw04/chmod.c:48 | foo's new mode is 0644 |
| ChmodModes.ChmodProgram | hw04/chmod.c:37-54 | success exactly when stat and both chmods succeed; bar's chmod uses the computed mode, foo's only after bar's succeeded |

## Left out

- Sockets, `select`, `accept`, threads, signals and process creation are not modelled. Their results are inputs:
  - `recv` byte counts and data;
  - per-recipient `send` success;
  - the readable set;
  - the scheduler's choice of which side runs;
  - whether `fopen`, `stat` or `lstat` succeeds.
- Printing (`printf`, `perror`) and `ThreadUsleep` delays are left out. They change no modelled state.
- Failures of `pthread_create`, `pthread_cancel`, `pthread_join`, of mutex and condition-variable set-up, and of `sem_wait`/`sem_post` error returns are not modelled. The model follows the paths where these succeed.
- Blocking waits are preconditions. `sem_wait`, the semaphore-guarded steps and the wait in `PickUp` are modelled from the moment the wait no longer blocks.
- ProdCons.RunGuarded treats each store or take iteration as one atomic step. This holds for prodcons_m.c, where the mutex is held around it. The busy-waiting threads of prodcons_t.c and the shared-memory processes of producer.c and consumer.c run the same steps without any lock: `counter++` and `counter--` are unlocked read-modify-write updates of a shared counter, and a lost update there can let the producer overwrite an unconsumed item. That race is not modelled, and the run's guarantees are not claimed for those versions.
- The scheduler cannot starve a side in the producer/consumer runs. A side that cannot proceed gives its turn to the other.
- Thread ids (`Client[i].tid`) are not modelled. The threaded shutdown records the slots it cancels and joins.
- ChatSelect.Broadcast, ChatThreads.SendToOtherClients and ChatThreads.Receive require the formatted line to fit `MAX_BUF + MAX_ID` bytes (`LineFits`), the size of the `msg` buffer. A longer line overflows the buffer in the source.
- ChatCommon.Recv takes the received text up to its terminator. When a peer sends a chunk with no terminator, the source reads stale bytes; that is not modelled.
- CString methods treat `char` as unsigned code points. On platforms with a signed `char`, bytes of 0x80 and above compare differently.
- CString.StrCpyP and the other copying routines require distinct source and destination arrays. Overlapping buffers are undefined behaviour in C and are not modelled.
- StatBits uses the Linux values of the `S_IF*` file-type codes. POSIX fixes only the permission bits.
- In stat.c, a mode matching none of the seven types prints whatever `mode` still holds from an earlier argument; the model carries that value across arguments. When no earlier argument was classified, the source prints a pointer that was never assigned; the model reports this as `Unassigned`.
- The `main` of midterm/upper.c passes a character to `to_uppercase`, which expects a pointer. Only `to_uppercase` is modelled.
- Tab.DestName requires a source name of at most 37 characters, because `fdest[40]` must hold the name, ".t" and the terminator.
- SplitMerge.Split keeps sizes as unbounded integers. The source truncates `filesize`'s `long` result to `int`, which is not modelled for files of 2 GiB or more.
- Partial reads other than at end of file are not modelled: `fread` is assumed to return the requested count when the bytes are there.
- Tadd.Sums uses unbounded integers. The sums stay far below 32-bit overflow.

## Findings

| source | as written | input that shows it | evidently intended | confidence | as-written member | corrected member |
|---|---|---|---|---|---|---|
| hw02/string.c:195-207 | `strcmp_a` loops only while `dst[i]` is not NUL and returns 0 after the loop, so a `dst` that is a proper prefix of `src` compares equal | dst = "ab", src = "abc" gives 0 (strcmp_p gives -1) | after the loop, return 0 only when `src[i]` is also NUL, -1 otherwise, matching `strcmp_p` | not executed | CString.StrCmpA, CString.StrCmpAPrefixCounterexample | CString.StrCmpAFixed |
