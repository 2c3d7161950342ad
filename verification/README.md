# Thread pools, wake-ups and a message link, in Dafny

A model of this repository's concurrent programs and of its message link, with proofs about
every run of them. `dafny verify dfyconfig.toml` checks the whole project (Dafny 4.11).

The concurrent programs are machines: a state with one program counter per thread, for any
number of threads; a `Step` datatype; `Enabled` and `Apply`; and lemmas over every legal run.
One step is one stretch from taking a mutex to releasing it or to waiting. Whatever happens
outside the mutex (a broadcast after the unlock, a join, each round of an unlocked loop) is a
step of its own. Condition variables follow `pthread_cond_wait` and `pthread_cond_signal` of
POSIX.1-2017: waiting releases the mutex atomically, a signal wakes at least one waiter if
there is one, and any waiter may wake spuriously at any time.

The code that updates structures in place is imperative Dafny beside the machines: linked
lists, the server's record map, byte buffers, the array of thread ids and the shell's token
buffer. Each method's contract ties it to the function that the machine uses; for `recvMsg`,
whose contract speaks of whole frames, `EndToEnd.WholeIsRead` makes the connection to the
machine's reads.

| file | what it models |
|---|---|
| `JobPool.dfy`, `JobAnswers.dfy`, `JobProgress.dfy`, `JobList.dfy` | `Pthread/phread_pool.c`: bounded queue, three condition variables, two-phase shutdown |
| `ElasticPool.dfy`, `ElasticTasks.dfy`, `ElasticSlots.dfy` | `Pthread/pthread_pool2.0.c`: thread accounting, tasks, and the array of thread ids |
| `WakeUp.dfy`, `Lists.dfy` | `Pthread/phread_pool1.0.c`, `Pthread/condlock.c`, `Pthread/生产与消费.c`: three ways to wake a consumer |
| `Semaphores.dfy` | `Pthread/信号量.c`: two counting semaphores around a list |
| `Checker.dfy`, `CheckerReference.dfy`, `CheckerServer.dfy` | `network/test_server.cpp`: the class `NetworkTestServer` |
| `Framing.dfy`, `Bytes.dfy` | `network/test_client.cpp`, `network/test_server.cpp`: frames over short reads and writes |
| `EndToEnd.dfy` | tester, client, connection, server and checker together |
| `CommandSplit.dfy` | `myShell/myshell3.c`: the tokeniser and splitter |
| `CondVar.dfy`, `Stamps.dfy`, `Totals.dfy` | waiters, signals and broadcasts; the order in which items leave a list; sums and counts over sequences |

## Where the text departs from its intent

The type `Reading` (`Meant`, `AsWritten`) selects which of the two is modelled, and the lemmas
say exactly when the text is right.

- `network/test_server.cpp:69` reports equal pairs where `Diff` means unequal ones. All
  statements about the checker hold for both; `EndToEnd.FinalQueryAsWritten` says what it does to a session.
- `network/test_server.cpp:95` answers before it looks at the status, so the query that finds
  the mismatch at its own index is told `Success` while it sets the status to `Diff`:
  `Checker.SuccessIsSoundUnless` gives the state before the call in which this happens. The last
  query of a session can be that query, so what it leaves (`EndToEnd.FinalStatus`) and what it is
  answered (`EndToEnd.FinalReply`) have different conditions.
- `network/test_server.cpp:198` keeps only what precedes the first NUL byte: `Framing.LinkDeliversIff`.
- `network/test_client.cpp:324` writes from the start of the buffer again after a short write:
  by length and chunks, every frame goes out intact exactly if the message is empty or one write
  takes it all (`Framing.AsWrittenIntactIff`); and a given message goes out intact in all chunks
  exactly if every byte of its frame is the same (`Framing.SurvivesAllIff`), which leaves the empty
  message and the messages of b * 0x01010101 bytes that are all b (`Framing.UniformIff`). Other
  frames can survive some short writes: `Framing.OneChunkingSpares`.
- `Pthread/pthread_pool2.0.c:101` increments `livenum` where `queueSize` is meant:
  `ElasticPool.AsWrittenTakesNothing` and `ElasticPool.BoundHoldsIff`. Line 194 passes a slot's
  value where its address is meant; the model stores the new id in the slot.
- `Pthread/信号量.c:65` starts `csem` at 2 over an empty list: `Semaphores.CrashIff`.
- `Pthread/phread_pool.c` accepts a bound of 0, with which every call blocks: `JobPool.NeverStuckIff`.

## Model

| member | source | states |
|---|---|---|
| JobPool.WakeUpsLoseNothing | Pthread/phread_pool.c:98-195 | in every reachable state, a non-empty queue means that no worker sleeps un-notified, a sleeping producer that the queue is full, a sleeping destroyer that it is not empty; after each final broadcast its waiters are gone; for every bound and every number of workers |
| JobPool.ExactlyOnePlace | Pthread/phread_pool.c:107-169 | accepted jobs are, as multisets, those executed, those running and those queued; each accepted call's job exactly once; taken jobs are a prefix of the accepted ones; the queue keeps to its bound |
| JobPool.GracefulShutdown | Pthread/phread_pool.c:172-196 | when the workers are joined the queue is empty, every job whose call returned 0 has run exactly once and no other job has run, over every run |
| JobPool.NoStuckState | Pthread/phread_pool.c:91-196 | with a worker and a bound other than 0, threads can only stop when every call has returned and the queue is empty |
| JobPool.NeverStuckIff | Pthread/phread_pool.c:98-101 | that is so in every run exactly for pools with a worker and a bound other than 0 |
| JobPool.SettleWorkers | Pthread/phread_pool.c:98-141 | with bound 0 there is a run in which the call and all workers go to sleep |
| JobPool.NoWorkerStuck | Pthread/phread_pool.c:183-186 | with no worker there is a run in which the destroyer waits for ever |
| JobPool.ShutdownBound | Pthread/phread_pool.c:135-196 | once queue_close is set the threads take at most `Remaining` steps, plus one for each new call and each spurious wake-up |
| JobPool.ShutdownCompletes | Pthread/phread_pool.c:135-196 | after queue_close they stop only when a destroyer has joined all workers, every call has returned and each accepted job has run exactly once |
| JobAnswers.AddAnswer | Pthread/phread_pool.c:98-128 | in every reachable state: a call waits exactly if the queue is full and open, returns 0 with its own job queued last exactly if the queue is open, has room and malloc succeeds, and returns -1 otherwise; the first job of an empty queue wakes all workers, no other any |
| JobAnswers.TakeAnswer | Pthread/phread_pool.c:137-165 | in every reachable state: a worker leaves exactly if the pool is closed, sleeps exactly if it is open without a job, and otherwise runs the oldest; the last job wakes the destroyer, the first free place all calls |
| JobAnswers.CloseAnswer | Pthread/phread_pool.c:175-189 | in every reachable state: a destroyer is refused exactly if another has closed the queue before; the winner sleeps exactly while jobs are queued and otherwise closes the pool |
| JobAnswers.TurnedAwayOnlyWhenClosed | Pthread/phread_pool.c:98-128 | over every run in which malloc succeeds, a call returns -1 only once the queue is closed |
| JobAnswers.RefusedOnlyWhenClosed | Pthread/phread_pool.c:175-181 | over every run, a destroyer is refused only once another has closed the queue |
| JobAnswers.OneDestroyerJoins | Pthread/phread_pool.c:172-196 | with a worker, once threadpool_destroy has been called the threads stop only when both flags are set, exactly one of these calls has joined the workers and all others were refused |
| JobProgress.CanFinishIff | Pthread/phread_pool.c:91-196 | from every reachable state the threads can by themselves run every accepted job, once each, and return every call, exactly for a pool with a worker and a bound other than 0 |
| JobProgress.StopsOnlyWhenDone | Pthread/phread_pool.c:91-196 | with both, threads that have stopped have done so, before shutdown as after it |
| JobProgress.WorkIsBounded | Pthread/phread_pool.c:91-196 | in every run from every reachable state the threads take at most `Outstanding` steps, plus a share for each new call, and one for each spurious wake-up and each destroyer |
| JobProgress.ThreadsLower | Pthread/phread_pool.c:91-196 | every step of a thread lowers that measure, queue open or closed |
| JobProgress.EnvAdds | Pthread/phread_pool.c:91-172 | what a new call, a destroyer or a spurious wake-up adds to it |
| JobProgress.AddingLowers | Pthread/phread_pool.c:107-128 | an accepted job costs no more than was set aside for its call |
| JobProgress.Settles | Pthread/phread_pool.c:91-196 | builds a run of the threads alone to where none can move |
| JobPool.WorkLowers | Pthread/phread_pool.c:135-196 | after queue_close every step of a thread lowers the measure |
| JobPool.EnvRaises | Pthread/phread_pool.c:91-196 | a new call or a spurious wake-up raises it by at most one |
| JobPool.QuietHasReturned | Pthread/phread_pool.c:91-196 | from the invariant alone: where no thread can move, every call has returned |
| JobPool.WakeKept | Pthread/phread_pool.c:116-164 | every step keeps the wake-up invariant |
| JobPool.CloseKept | Pthread/phread_pool.c:176-196 | every step keeps one winner among the destroyers, the meaning of its phases, and what each phase promises about the threads |
| JobPool.HistoryKept | Pthread/phread_pool.c:107-169 | every step keeps the job histories: order, no duplicates, one runner per job |
| JobPool.CloserLockKeepsClose | Pthread/phread_pool.c:175-189 | the two tests of the destroyer under the mutex keep the shutdown invariant |
| JobPool.WorkerLockKeepsHistory | Pthread/phread_pool.c:137-165 | a worker takes the oldest job, which nobody has taken before |
| JobPool.InvKept | Pthread/phread_pool.c:91-196 | every run from a state that satisfies the invariant keeps it |
| JobList.ThreadPool.constructor | Pthread/phread_pool.c:46-50 | an empty list, both flags clear |
| JobList.ThreadPool.AddJob | Pthread/phread_pool.c:97-128 | waits, refuses or appends exactly as the list, the flags and malloc say, and as the machine's add section does; the outcome tells whether the list was empty |
| JobList.ThreadPool.Link | Pthread/phread_pool.c:116-126 | the list grows at the tail by the new node; reports whether it was empty |
| JobList.ThreadPool.TakeJob | Pthread/phread_pool.c:137-165 | takes the head exactly if the pool is open and the list is not empty, as the machine's take section does; the outcome tells the two edges |
| JobList.ThreadPool.Close | Pthread/phread_pool.c:175-189 | refuses exactly at the entry of a closed pool, waits exactly while jobs are listed, and sets the flags, as the machine's close and drain sections do |
| JobList.ThreadPool.FreeJobs | Pthread/phread_pool.c:203-209 | frees exactly the jobs still queued, so none after a graceful shutdown |
| ElasticPool.CountStaysInBounds | Pthread/pthread_pool2.0.c:120-199 | livenum is the number of active workers and stays within minnum and maxnum in every reachable state; exitnum stays within 0 and 2; the manager's copy is never below livenum when it decides |
| ElasticPool.SlotAccounting | Pthread/pthread_pool2.0.c:120-271 | over every run: the occupied slots number livenum plus the workers still looking for theirs; threads and slots correspond one to one; a leaving worker's slot is at or after the place where its unlocked search stands |
| ElasticPool.LiveSlotNotOverwritten | Pthread/pthread_pool2.0.c:190-197 | a step changes an occupied slot only if its owner clears it and leaves |
| ElasticPool.DismissalsAreOrdered | Pthread/pthread_pool2.0.c:118-213 | over every run: livenum is minnum plus the workers created minus those dismissed, and those dismissed with what exitnum still asks for are at most two for each order of the manager |
| ElasticPool.StepBalance | Pthread/pthread_pool2.0.c:118-213 | each step keeps both balances |
| ElasticPool.TasksInOrder | Pthread/pthread_pool2.0.c:67-147 | tasks are taken in the order they were added, the queue keeps to its capacity, and where a producer sleeps un-notified the free places are no more than the notified producers |
| ElasticTasks.EachTaskOnce | Pthread/pthread_pool2.0.c:88-147 | over every run, in either reading: the tasks accepted are those of the calls that have returned, each once, and every task taken is one of them, taken once |
| ElasticTasks.AddAnswer | Pthread/pthread_pool2.0.c:67-105 | in every reachable state: a call waits exactly if the queue is full (as written: if the capacity is 0) and otherwise returns with its own task queued last; the first task of an empty queue wakes the workers that the signal chooses |
| ElasticTasks.WorkerAnswer | Pthread/pthread_pool2.0.c:115-147 | in every reachable state: a worker leaves exactly if it comes from a wait into an order that the minimum allows, sleeps exactly if it stays and no task is counted, and otherwise takes the oldest task |
| ElasticTasks.WorkerAnswerRest | Pthread/pthread_pool2.0.c:120-146 | an order is used up even where the minimum forbids it; taking a task signals a producer |
| ElasticTasks.WhoCanMove | Pthread/pthread_pool2.0.c:67-213 | in every reachable state the manager can move, and so can every thread that does not sleep, unless it is for the mutex while the manager holds it |
| ElasticTasks.ManagerDecidesAlone | Pthread/pthread_pool2.0.c:172-213 | a round of the manager alone raises livenum by the free slots among the first ones, as many as tasks lack a thread within the maximum, and orders two dismissals exactly if threads are more than twice the tasks and above the minimum |
| ElasticTasks.ManagerCreatesIff | Pthread/pthread_pool2.0.c:185-199 | so it creates exactly if tasks outnumber the threads, these are below the maximum, and one of the slots examined is free |
| ElasticTasks.SignalsWakeTwo | Pthread/pthread_pool2.0.c:203-213 | an order is two signals: two sleepers fewer, or none left |
| ElasticPool.AsWrittenTakesNothing | Pthread/pthread_pool2.0.c:101-140 | as written no task is ever taken, in any run |
| ElasticPool.AsWrittenCountsTasks | Pthread/pthread_pool2.0.c:101-102 | as written there are runs with livenum at minnum plus any number of tasks |
| ElasticPool.BoundHoldsIff | Pthread/pthread_pool2.0.c:67-105 | livenum stays within maxnum in every run exactly if the meant field is incremented, or the capacity is 0 |
| ElasticPool.StepKeeps | Pthread/pthread_pool2.0.c:67-271 | every step keeps slots, counts, queue and wake-ups consistent |
| ElasticPool.AfterKeeps | Pthread/pthread_pool2.0.c:67-271 | and so does every run |
| ElasticPool.ScanKeeps | Pthread/pthread_pool2.0.c:262-270 | one round of the unlocked search keeps the invariant and stays within the array |
| ElasticPool.CreateKeeps | Pthread/pthread_pool2.0.c:190-197 | one round of the creation loop keeps it |
| ElasticPool.WakingCalls | Pthread/pthread_pool2.0.c:146 | a signal that leaves a producer asleep has woken another |
| ElasticPool.InitInv | Pthread/pthread_pool2.0.c:25-54 | the pool starts with its minimum of workers in the first slots |
| ElasticSlots.ThreadExit | Pthread/pthread_pool2.0.c:259-271 | the loop over the array does what the machine's rounds do |
| ElasticSlots.CreateThreads | Pthread/pthread_pool2.0.c:189-198 | the loop over the array does what the machine's rounds do, with the same count |
| ElasticSlots.ScanAllClears | Pthread/pthread_pool2.0.c:262-270 | run to its end it clears a slot of the thread and no other, and only that thread goes |
| ElasticSlots.ExitClearsOwnSlot | Pthread/pthread_pool2.0.c:259-271 | afterwards the id of the thread is nowhere in the array |
| ElasticSlots.CreateAllInBounds | Pthread/pthread_pool2.0.c:187-199 | with a copy no smaller than livenum the loop cannot push livenum above maxnum |
| ElasticSlots.CreateAllFills | Pthread/pthread_pool2.0.c:190-197 | it fills exactly the free slots among those that the copies make it look at |
| ElasticSlots.CreateAllCounts | Pthread/pthread_pool2.0.c:190-197 | and adds their number to livenum |
| WakeUp.NoItemStranded | Pthread/condlock.c:20-41 | while a consumer sleeps un-notified, the items listed are at most the wake-ups on their way (notified consumers, pending signals or pending broadcasts, by discipline); nothing is lost or doubled; with the tail list the order is kept |
| WakeUp.QuietMeansDrained | Pthread/生产与消费.c:18-55 | when no thread can move, everything produced has been consumed |
| WakeUp.WorkIsBounded | Pthread/phread_pool1.0.c:67-136 | the threads take a bounded number of steps for each item put and each spurious wake-up |
| WakeUp.TakesNext | Pthread/condlock.c:25-31 | over every run: a consumer sleeps exactly if the list is empty, and otherwise takes, of all items produced and not yet consumed, the newest from a head-inserted list and the oldest from the other |
| WakeUp.LockTakesNext | Pthread/生产与消费.c:40-48 | the same for one state and its history |
| WakeUp.PushItem | Pthread/condlock.c:37-38 | on linked nodes, the insertion of the machine at the head |
| WakeUp.AppendItem | Pthread/phread_pool1.0.c:62-86 | on linked nodes, the insertion of the machine at the tail |
| WakeUp.WakeKeeps | Pthread/phread_pool1.0.c:75-92 | putting an item, signalling and broadcasting keep the counting invariant |
| WakeUp.LockKeeps | Pthread/condlock.c:25-30 | testing, taking, sleeping and spurious waking keep it |
| CondVar.WakeCounts | Pthread/phread_pool1.0.c:89 | a signal that finds a waiter adds to the notified, whatever the threads |
| Lists.Stack.Push | Pthread/condlock.c:37-38 | the node becomes the head of the chain, the rest unchanged |
| Lists.Stack.Pop | Pthread/condlock.c:28-29 | takes the head off, the rest unchanged |
| Lists.Fifo.Enqueue | Pthread/phread_pool1.0.c:69-86 | appends at the tail; head is null exactly when tail is |
| Lists.Fifo.Dequeue | Pthread/phread_pool1.0.c:119-125 | takes the head off; head is null exactly when tail is |
| Semaphores.Conservation | Pthread/信号量.c:20-58 | psem, csem and the threads between wait and post are constant in sum; psem, the producers' and consumers' share and the list are too, which bounds the list |
| Semaphores.TakesNewest | Pthread/信号量.c:41-53 | over every run: a consumer that finds an item takes, of all items produced and not yet consumed, the newest |
| Semaphores.CrashIff | Pthread/信号量.c:41-58 | some run reads a null head exactly if csem starts above the length of the list and there is a consumer |
| Semaphores.ProgramCanCrash | Pthread/信号量.c:60-73 | so the program as it is started can |
| Semaphores.NeverCrashes | Pthread/信号量.c:41-58 | with no more units than items no run does |
| Semaphores.ConsumerRunsDry | Pthread/信号量.c:41-58 | with more units than items one consumer alone gets there |
| Semaphores.NeverAllBlocked | Pthread/信号量.c:20-58 | with a unit to start with and a thread of each kind, some thread can always move |
| Semaphores.StepKeeps | Pthread/信号量.c:20-58 | every step conserves both sums |
| Checker.WindowInvariant | network/test_server.cpp:41-132 | while the status is Success the records held are exactly those between the compare pointer and the last arrival; TestError is never set or answered |
| Checker.DiffIsSticky | network/test_server.cpp:45-59 | after Diff no call changes anything |
| CheckerReference.EveryReply | network/test_server.cpp:79-119 | every answer to every query: from a satisfied checker Success exactly if the pair asked for has arrived and none before it is flagged, Diff, Wait and WaitRPC exactly when, and the id; after Diff always Diff with the first flagged pair as id |
| CheckerReference.AnswersAsReference | network/test_server.cpp:41-132 | over every run the fields answer each query and each registration as a reference does that knows only the two sequences and how many pairs earlier queries have compared |
| CheckerReference.RegisterReply | network/test_server.cpp:41-55 | a registration is answered Diff exactly after Diff, otherwise Success with the number of pairs found clean |
| CheckerReference.StepFollows | network/test_server.cpp:41-132 | every call keeps fields and reference in step |
| Checker.QueryReply | network/test_server.cpp:94-119 | every answer of a satisfied checker to a query beyond the compare pointer as a function of the two message sequences and the first flagged pair |
| Checker.SuccessIsSoundUnless | network/test_server.cpp:88-99 | Success for i means that pairs 1 to i have arrived and are unflagged, except exactly when, before the call, the status is Success and i is the first flagged pair beyond the compare pointer |
| Checker.FirstQueryMissesMismatch | network/test_server.cpp:94-104 | that exception occurs for any two different messages, and the next query gets Diff |
| Checker.SuccessMeansEqual | network/test_server.cpp:56-119 | as meant, with answers registered before their messages and outside that state before the call, Success for i means that the first i messages equal the first i answers |
| Checker.DiffExactly | network/test_server.cpp:56-77 | Diff is set exactly by a query beyond the compare pointer when some arrived pair is flagged |
| Checker.FullQuery | network/test_server.cpp:79-119 | a query for the last pair leaves the status at Success if no pair is flagged and at Diff otherwise |
| Checker.FullQueryReply | network/test_server.cpp:88-104 | the same query is answered Success exactly if the status was Success and no pair before the last is flagged, and Diff otherwise |
| Checker.ScanFinds | network/test_server.cpp:61-76 | the compare loop stops at the first flagged pair, or at the last pair |
| Checker.RegisterKeeps | network/test_server.cpp:41-55 | registering keeps window, pairs and verdict, also when the answer comes after its message and drops it |
| Checker.CommitKeeps | network/test_server.cpp:122-132 | committing keeps them |
| Checker.FirstFlagged | network/test_server.cpp:67-76 | the first flagged pair, defined on the sequences alone |
| Checker.After | network/test_server.cpp:41-132 | every run keeps the invariant, which makes each next step defined |
| CheckerServer.NetworkTestServer.AnswerRegister | network/test_server.cpp:41-55 | the fields and the reply are those of the register function; the invariant of all runs is kept |
| CheckerServer.NetworkTestServer.Commit | network/test_server.cpp:122-132 | likewise for commit; the record written has not been deleted |
| CheckerServer.NetworkTestServer.Update | network/test_server.cpp:56-77 | the loop computes the scan; no deleted record is used |
| CheckerServer.NetworkTestServer.ResultQuery | network/test_server.cpp:79-119 | the fields and the reply are those of the query function; its last branch is dead |
| Framing.WireRoundTrip | network/test_client.cpp:303-314 | for every list of messages with size + 4 below 2^31, reading as many frames gives them back in order and leaves the stream at a frame boundary |
| Framing.FrameRoundTrip | network/test_server.cpp:186-198 | one frame |
| Framing.Client.Writen | network/test_client.cpp:316-336 | for every sequence of short writes and errors: what reaches the stream, in either reading, and what is returned |
| Framing.Client.SendMsg | network/test_client.cpp:303-314 | without errors and as meant, exactly the frame of the message reaches the stream; the result is -1 exactly if less was written |
| Framing.Client.SendAll | network/test_client.cpp:345-350 | the frames of all messages, in order |
| Framing.Server.Readn | network/test_server.cpp:204-223 | for every sequence of short reads: the next bytes of the stream, or an error, or blocked for want of bytes |
| Framing.Server.RecvMsg | network/test_server.cpp:182-202 | without errors, the next message of the stream; as written its prefix up to the first NUL, stated on the bytes |
| Framing.Server.RecvAll | network/test_server.cpp:272-277 | as meant, all messages that were sent, in order |
| Framing.MeantWritesBuffer | network/test_client.cpp:316-336 | as meant, any chunks write the buffer |
| Framing.SecondChunkRestarts | network/test_client.cpp:324 | as written, the second chunk starts with the first byte of the buffer |
| Framing.EveryChunkRestarts | network/test_client.cpp:322-327 | as written, every chunk is copied from the start of the buffer |
| Framing.SourceBehindFirst | network/test_client.cpp:322-327 | as written, every byte behind the first chunk is copied from an earlier place of the buffer |
| Framing.ShortWriteSpoils | network/test_client.cpp:322-327 | as written, for every length but 0 and every chunking with a short write, the frame of some message of that length goes out changed |
| Framing.EmptyIntact | network/test_client.cpp:322-327 | the frame of the empty message goes out intact in any chunks |
| Framing.AsWrittenIntactIff | network/test_client.cpp:303-336 | as written, a chunking leaves the frame of every message of its length intact exactly if it has at most one chunk or the message is empty |
| Framing.SurvivesAllIff | network/test_client.cpp:303-336 | as written, the frame of a message goes out intact in every chunking exactly if all its bytes, header included, are the same |
| Framing.UniformIff | network/test_client.cpp:303-310 | those are the empty message and the messages of b * 0x01010101 bytes that are all b |
| Framing.TwoWritesSpoil | network/test_client.cpp:322-327 | any other message has two writes that spoil its frame |
| Framing.OneChunkingSpares | network/test_client.cpp:322-327 | an instance: a message of four bytes that two writes of four leave intact, though other chunks do not |
| Framing.LinkDeliversIff | network/test_server.cpp:197-201 | a message comes out as it went in exactly if it holds no NUL byte |
| Bytes.BeforeNul | network/test_server.cpp:198 | a prefix without a NUL byte that is followed by one if it is not the whole, so the longest; the whole exactly if there is none |
| Bytes.BigEndian | network/test_client.cpp:307-308 | four bytes, the most significant first |
| EndToEnd.EndToEndDelivery | network/test_client.cpp:116-135 | for every interleaving and chunking: the committed messages are the registered ones in order, cut at the first NUL; with no NUL byte they are a prefix and Diff is unreachable; once all is delivered the last query leaves Success exactly if there was none, and is answered Success exactly if none but the last message holds one and no earlier query failed |
| EndToEnd.FinalReply | network/test_server.cpp:88-104 | in either reading, once all is delivered the last query is answered Success exactly if the status was Success and no message but the last is flagged, and Diff otherwise |
| EndToEnd.FinalStatus | network/test_server.cpp:56-77 | in either reading it leaves the status at Success if no message is flagged and at Diff otherwise |
| EndToEnd.FinalQueryAsWritten | network/test_server.cpp:69 | with the comparison as written it leaves Success exactly if every message held a NUL byte, and is answered Success exactly if every message but the last did and no earlier query failed |
| EndToEnd.SessionExists | network/test_client.cpp:338-352 | any list of sendable messages has a run that registers and delivers them, with the status still Success, and if one is flagged also one with the status at Diff |
| EndToEnd.PassesAlwaysIff | network/test_server.cpp:79-119 | the last query is answered Success in every session with these messages exactly if none of them is flagged |
| EndToEnd.PassesSometimesIff | network/test_server.cpp:88-99 | it is answered Success in some session exactly if none but the last is flagged |
| EndToEnd.LastFlaggedPasses | network/test_server.cpp:94-99 | where the last message alone is flagged there is a session whose last query is answered Success and sets Diff |
| EndToEnd.OneMessagePasses | network/test_server.cpp:94-99 | as meant, one message that is a NUL byte; as written, one without |
| EndToEnd.DiffOnlyAtFlagged | network/test_server.cpp:67-73 | Diff is reached only at a message that the comparison flags as the link carries it, so never without one |
| EndToEnd.QuietMeansDelivered | network/test_client.cpp:338-352 | the link cannot stop before every registered message is delivered |
| EndToEnd.DeliveryIsBounded | network/test_client.cpp:303-352 | the link takes at most two steps for each byte and eleven for each message registered, however it is scheduled and chunked |
| EndToEnd.StepLowers | network/test_client.cpp:303-352 | every step of the link lowers that measure |
| EndToEnd.StepKeeps | network/test_server.cpp:182-278 | every step keeps the bytes under way equal to the frames not yet delivered, and the commits equal to the deliveries |
| EndToEnd.ReadKeepsLink | network/test_server.cpp:186-192 | a read that takes no more than is asked for stays within the current frame |
| EndToEnd.WholeIsRead | network/test_server.cpp:186-198 | while a frame comes in, the machine's test for a whole message is that recvMsg's specification reads one from those bytes and leaves none |
| EndToEnd.WholeIsNext | network/test_server.cpp:186-201 | a whole message read is the next one sent |
| CommandSplit.SplitLine | myShell/myshell3.c:37-74 | in place: the array holds the segments of the tokens of the line, each argument a string in the buffer, each segment ended by a null pointer at top + 1 |
| CommandSplit.SplitLosesNothingIff | myShell/myshell3.c:54-69 | flattening the segments with their operators gives the tokens back exactly if every token that starts like an operator is one of the five |
| CommandSplit.LongOperatorIsLost | myShell/myshell3.c:54-62 | an instance: a line whose second token starts like a pipe but is longer; it ends the segment with sign 0 and is in none of them |
| CommandSplit.TokensAtSpace | myShell/myshell3.c:44-70 | at any space the tokens of a line are those before it and those behind it |
| CommandSplit.TokensOfWord | myShell/myshell3.c:44-70 | what holds no space is one token; with the row above this determines the tokens of every line |
| CommandSplit.SplitAtOperator | myShell/myshell3.c:54-64 | the first operator ends the first segment and gives it its sign, and the rest is split on its own |
| CommandSplit.SplitPlain | myShell/myshell3.c:65-69 | tokens without an operator are one segment with sign 0; with the row above this determines the segments |
| CommandSplit.SignCodes | myShell/myshell3.c:55-59 | the five codes |
| CommandSplit.OperatorAction | myShell/myshell3.c:84-94 | what execute does for each operator |
| CommandSplit.TokensOfJoin | myShell/myshell3.c:44-70 | words joined by spaces are the tokens |
| CommandSplit.TokensKeepCharacters | myShell/myshell3.c:44-70 | tokens are words without spaces, and hold every other character of the line in order |
| CommandSplit.Strtok | myShell/myshell3.c:44-70 | returns the next token as a string in the buffer, cutting at most one space |
| CommandSplit.Segments.CutKeepsSegments | myShell/myshell3.c:70 | the next cut leaves the tokens already stored as they are |
| CommandSplit.AddToken | myShell/myshell3.c:54-69 | one token more that starts with neither a quote nor `~`: an operator ends the segment and opens the next, anything else is an argument |
| CommandSplit.SignOf | myShell/myshell3.c:55-59 | the chain of comparisons gives the sign of the operator, 0 for none |

## Left out

- Thread creation, allocation failure other than in threadpool_add_job, printing, sleeping, and what callbacks do: creation succeeds, and callbacks return without calling the pool.
- Freeing the mutex and the pool (`Pthread/phread_pool.c:198-210`) while a call is still inside the pool: a client must have no call in flight; the model stops at the end of the joins, apart from the freeing loop over the queue.
- Shutdown of `Pthread/phread_pool1.0.c`: its flag is set without the lock, so the broadcast can be missed. Shutdown and liveness of `Pthread/pthread_pool2.0.c`, whose single signal on the empty edge can reach a worker that leaves. Its `busynum` counter, which decides nothing.
- The counters of the pools (`queue_cur_num`, `livenum` and the others) are unbounded integers.
- Thread ids in `ElasticPool`: an id is any non-zero number that no living thread has.
- ElasticPool.CountStaysInBounds: starts after `threadPoolInit` has created its workers, which fit the array.
- The worker and add functions of `Pthread/pthread_pool2.0.c` are modelled on values only; its two array loops also in place. The machines of `WakeUp` and `Semaphores` hold the list as a sequence; `Lists` has the same operations on linked nodes.
- CheckerServer.NetworkTestServer.AnswerRegister: the counters stay below their wrap-around at 2^32; `NetworkTestServer.Commit` likewise.
- Framing.Server.RecvMsg: states nothing after a failed recv, and a length of 2^31 or more, which the text turns into a negative allocation, never returns. End of stream is not modelled: a reader without bytes blocks.
- Framing.Client.SendMsg: for messages whose size + 4 fits an `int`.
- EndToEnd: the message buffer between tester and client is first in, first out; `Msg.h` is not part of this model, and its `Diff` is taken to be at or above its `ErrorLevel`, so that a tester whose registration is refused throws (`network/test_client.cpp:78`); were it below, the message would be pushed unregistered. The connection delivers every byte, as meant by writen.
- The index logic of `ClientTester`, gRPC, random generation, socket set-up and connection retry.
- CommandSplit.SplitLine: for tokens that do not start with a quote, after which the text looks for a `|` without a bound, or with `~`, for which it appends to the environment; and for lines that fit the 8 segments of 20 arguments, which the text does not test.
- CommandSplit.AddToken: for the same tokens, and while the segments fit.
- Running commands in the shell, `ls_command/`, `Pthread/hashlock.c` and the notes under `blog/`.
