# GenericServer: models and proofs

GenericServer is a reactor in the style of muduo: one event loop per thread, a logger that writes through lock-free
rings, a timing wheel, and a wheel that expires idle connections. This project models those parts in Dafny and proves
what they are for. `dafny verify dfyconfig.toml` checks everything.

| file | what it models | main results |
|---|---|---|
| `RingBuffer.dfy` | one `append` or `retrive` call on the byte ring | `AppendsPrefix` holds of the repaired code, and of the written code iff its guard holds |
| `RingProtocol.dfy` | both calls at once, one step per index load, byte copy and publication | `Safety`, `RingRefinesQueue`, `ConcurrentAppend`, `ConcurrentRetrieve` |
| `AsyncLogger.dfy` | any number of logging threads and the consumer thread, with rings as byte queues; the retry loop | `OutputIsInterleaving`, `TimeUpHandsOver`, `WrittenRetryDeliversIff`, `StoppedLoggerTerminates` |
| `LoggerSystem.dfy` | the same threads on their real rings, every ring stepped as in `RingProtocol.dfy` | `LoggerDelivers`, `LoggerIsSafe`, `RunSimulates`, `StopDelivers` |
| `LogConsumer.dfy` | the draining loops over real rings and a real staging buffer | `Turn`, `FinalDrain` |
| `TimingWheel.dfy`, `TimerObjects.dfy` | the hashed wheel with round counters, as values and as objects, with callbacks that disable timers | `WheelRefinesDeadlines`, `TickTerminatesIff`, `WrittenDelayIsOneRoundLateIff` |
| `TimerLife.dfy` | one timer of the wheel among any others, from its addition on | `AddedTaskFires`, `RepairedTimerFires`, `WrittenTimerFires`, `DisabledTimerIsSilent` |
| `IdleConnections.dfy` | the reference-counting idle wheel | `WheelRefinesActivity`, `QuietEntryExpires` |
| `IdleExpiry.dfy` | the idle wheel driven by a repeating timer of the timing wheel | `SilentConnectionExpiresFromStart`, `ExpirySpan` |
| `EventLoop.dfy` | queued functors, the eventfd, registration and event masks | `HandOffIsCorrect`, `RequestedMaskArrives`, `WorkGetsDone`, `Turn`, `DeferredEqualsDirect` |
| `Buffers.dfy`, `WritePath.dfy` | the connection buffer; senders against the loop thread | `RoomComesBack`, `WritePathIsLive`, `WrittenHandlerStrandsIff`, `CanBeSentIffLive`, `ReturnIsArmedIff`, `MasksFollowLastWriter` |
| `Connection.dfy`, `Events.dfy` | event dispatch of one connection | `DispatchOutcome`, `CallbackTraceIsWellFormed`, `EveryByteIsDelivered`, `HandleEvent` |
| `BlockingQueue.dfy` | the condition-variable protocol | `NoLostWakeup`, `WaitingConsumerGetsItem` |
| `Decimal.dfy` | the signed integer printer | `Convert`, `ConvertRoundTrips` |

## How to read the models

A call that works in place is a method of a class; its postcondition equates the new state with a function of the old one
(`AppendSpec`, `RetrieveSpec`, `TickSpec`, `Dispatch`, ...), and the lemmas say what that function achieves, in terms that do
not mention its branches: the ring's content as a byte sequence, a list of deadlines, a map of last activities. Where
threads interleave there is a step system: an `Action` per step, `Enabled` and `Apply`, and results about every sequence
of actions that can be run from the initial state. Fields marked as history record what happened; no step depends on them.

`Variant` selects between the code `AsWritten` and the same code `Repaired` in one line. Five places need it or are
characterised exactly:

- `append` keeps no free slot when the read index is 0 and the data reaches the end of the storage: the ring then reads as
  empty, or the second copy gets length -1 (src/log/RingBuffer.cpp:18-29). The written call is correct iff at its load of
  `m_out`, when `m_in >= out`, `out > 0 || size < m_size - m_in`. A caller beside a running consumer cannot check that: it
  survives every step of the consumer iff `(m_in >= m_out && m_out > 0) || size < m_size - m_in` held before
  (`GuardSurvivesConsumerIff`). Records that fill a new ring exactly are all lost (`WrittenFillLosesEverything`). The repair
  reserves a slot and keeps `len2` at 0 or above.
- The retry in `AsyncLogger::append` sends the record from its start again (src/log/Log.cpp:95-99). It delivers every
  record of its size iff the first call that accepts anything accepts all of it; `WrittenRetryRepeats` and
  `WrittenRetryWitness` show ring states on which it does not. The repair sends the unsent suffix.
- `full()` omits the modulo (src/log/RingBuffer.h:31-34) and misses the full rings whose read index is 0.
- `m_round` counts rounds from slot 0 instead of from the cursor (src/reactor/Timer.cpp:49): a timer fires on time, or a
  whole round late iff `m_cur + d % 100 >= 100`.
- `handleWrite` disarms EPOLLOUT when a send accepts nothing (src/net/TCPConnection.cpp:117-126), although
  src/net/Socket.cpp:69 says that EAGAIN waits for EPOLLOUT. After such a send the buffered bytes are stranded iff no sender
  has yet to arm EPOLLOUT at the moment the handler writes the mask back. A sender that armed it before does not help, not
  even between the handler's read and write of the mask, which then overwrites its update; its request finds the mask
  without EPOLLOUT. Told from the send alone, the handler is safe among other threads iff the send accepted at least one
  byte. Only another message sets stranded bytes free.

The header of the idle wheel says "thread safe" while its locks are commented out; the model follows the code, which uses
it from one loop thread. The comment in Timer.h that the wheel does not modify an entry is not true of `m_round`.

## Model

| member | source | states |
|---|---|---|
| RingBuffers.RingBuffer.constructor | src/log/RingBuffer.h:12-15 | A new ring of the given size holds nothing |
| RingBuffers.RingBuffer.Empty | src/log/RingBuffer.h:36-39 | Index equality means exactly that no unread byte is held |
| RingBuffers.RingBuffer.Append | src/log/RingBuffer.cpp:7-41 | For both variants and any size, also 0 and below, the call leaves storage, indices and count of `AppendSpec`, or reaches the copy of negative length |
| RingBuffers.RingBuffer.Retrieve | src/log/RingBuffer.cpp:43-75 | For any size the call leaves storage, indices and destination of `RetrieveSpec` and touches no other destination byte |
| RingBuffers.SegmentExtendsContents | src/log/RingBuffer.cpp:20-21 | Copying a segment that leaves a slot free and publishing it adds exactly these bytes behind the unread ones, wrapped or not |
| RingBuffers.RepairedTwoCopies | src/log/RingBuffer.cpp:18-30 | The two copies of a wrapping append together add the longest prefix that fits, with no byte lost between them |
| RingBuffers.RepairedAppendIsCorrect | src/log/RingBuffer.cpp:7-41 | From every state and for all data, the repaired call adds the longest prefix that leaves one slot free, and returns its length |
| RingBuffers.WrittenAppendIsCorrectIff | src/log/RingBuffer.cpp:18-29 | The written call does so iff its guard holds; otherwise all content is lost from view or a copy has length -1, and which of the two is told by the size |
| RingBuffers.WrittenFillLosesEverything | src/log/RingBuffer.cpp:16-29 | Records of any lengths that fill a ring exactly before anything was read are reported as accepted byte for byte, and the ring then holds none of them |
| RingBuffers.GuardedVariantsAgree | src/log/RingBuffer.cpp:18-29 | Under the guard the repair changes no outcome |
| RingBuffers.RetrieveTakesPrefix | src/log/RingBuffer.cpp:43-75 | A retrieve returns the longest prefix of the content that was asked for and leaves the rest, never touching storage or write index |
| RingBuffers.AppendThenRetrieve | src/log/RingBuffer.cpp:7-75 | Round trip: append, then read everything back, gives the old content followed by the accepted prefix and an empty ring |
| RingBuffers.SizesMeasureContents | src/log/RingBuffer.h:36-53 | `data_size`, `avail_size` and `empty` measure the unread content and the usable room |
| RingBuffers.FullMissesIndexZero | src/log/RingBuffer.h:31-34 | `full()` is right except for the full rings whose read index is 0 |
| RingProtocol.LoadOutKeepsInv | src/log/RingBuffer.cpp:14-19 | The producer's load of the read index establishes the room it will rely on, however stale it becomes |
| RingProtocol.WriteKeepsInv | src/log/RingBuffer.cpp:20-36 | Each byte the producer copies goes to a slot that holds no unread byte |
| RingProtocol.PublishInKeepsInv | src/log/RingBuffer.cpp:21-36 | Publishing a segment, including the first of two, adds exactly its bytes to the accepted stream |
| RingProtocol.LoadInKeepsInv | src/log/RingBuffer.cpp:50-61 | The consumer's load of the write index bounds what it will copy by what is published |
| RingProtocol.ReadKeepsInv | src/log/RingBuffer.cpp:54-69 | Each byte the consumer copies out is the next unread byte of the stream |
| RingProtocol.PublishOutKeepsInv | src/log/RingBuffer.cpp:55-71 | Releasing a segment returns exactly the bytes copied, and the second segment is still published |
| RingProtocol.RunKeepsInv | src/log/RingBuffer.cpp:7-75 | The invariant with both byte counters, their remainders as indices and both stale snapshots holds after every interleaving |
| RingProtocol.InvMakesCopiesSafe | src/log/RingBuffer.cpp:14-72 | The slots being written and the slots being read are disjoint and inside the storage |
| RingProtocol.HeldIsUnread | src/log/RingBuffer.h:41-46 | What storage and indices delimit is the part of the accepted stream not yet returned |
| RingProtocol.Safety | src/log/RingBuffer.cpp:7-75 | After any interleaving, returned bytes are a prefix of accepted ones, the rest is the ring's content, fewer than `m_size` bytes are held, and the two copies never meet |
| RingProtocol.AppendAcceptsWhatItSawRoomFor | src/log/RingBuffer.cpp:14-40 | A concurrent append accepts the longest prefix that fits into the room at its one index load, in order, whatever the consumer does meanwhile |
| RingProtocol.ConcurrentAppend | src/log/RingBuffer.cpp:7-41 | From its load to its return, among any steps of the consumer, one append accepts exactly what the sequential call would have at the load: the longest prefix that leaves a slot free |
| RingProtocol.ConcurrentRetrieve | src/log/RingBuffer.cpp:43-75 | From its load to its return, among any steps of the producer, one retrieve returns exactly the longest requested prefix of what the ring held at the load |
| RingProtocol.RingRefinesQueue | src/log/RingBuffer.cpp:7-75 | Each step is a step of a byte queue: a publication enqueues, a release dequeues what was copied, everything else is invisible |
| RingProtocol.UndisturbedAppend | src/log/RingBuffer.cpp:7-41 | From every reachable state the steps of one append, run without the consumer, give what the sequential call gives |
| RingProtocol.UndisturbedRetrieve | src/log/RingBuffer.cpp:43-75 | From every well-formed state the steps of one retrieve, run without the producer, give and return what the sequential call does |
| RingProtocol.ConsumerStepKeepsStable | src/log/RingBuffer.cpp:50-72 | No step of the consumer takes away what the stable condition for the written append promises |
| RingProtocol.GuardSurvivesConsumerIff | src/log/RingBuffer.cpp:14-19 | The guard of the written append holds at its load after any steps of the consumer iff the stable condition holds before them |
| AsyncLoggers.AppendRecord | src/log/Log.cpp:93-99 | The retry loop puts into the ring, and counts as missing, what the two recursive definitions say, for any rooms found |
| AsyncLoggers.RepairedRetryDelivers | src/log/Log.cpp:93-99 | When the repaired loop ends, the record was delivered exactly once and in order |
| AsyncLoggers.WrittenRetryDeliversIff | src/log/Log.cpp:93-99 | When the written loop ends, it has delivered every record of the size iff the first accepting call accepted all of it |
| AsyncLoggers.TwoCallsSend | src/log/Log.cpp:93-99 | With room for a part at the first call and for all at the second, the written loop ends having sent that part twice |
| AsyncLoggers.WrittenRetryRepeats | src/log/Log.cpp:93-99 | A ring with room for a part of a record, emptied by the consumer before the retry, makes the reader see that part twice |
| AsyncLoggers.WrittenRetryWitness | src/log/Log.cpp:93-99 | A concrete ring and record for which this happens |
| AsyncLoggers.ReleaseKeepsInv | src/log/Log.cpp:117-125 | Moving bytes from a ring to the staging buffer keeps every thread's stream whole |
| AsyncLoggers.ControlKeepsInv | src/log/Log.cpp:113-149 | So do the flushes above the high-water mark, after a scan and at the end, and every other step of the consumer |
| AsyncLoggers.StepKeepsInv | src/log/Log.cpp:81-150 | Every step of every thread keeps every logged byte in exactly one place and in order |
| AsyncLoggers.OutputIsInterleaving | src/log/Log.cpp:81-150 | When the consumer is done, each thread's bytes are in the output completely, in order and once, and nothing else is |
| AsyncLoggers.OutputIsPrefix | src/log/Log.cpp:103-134 | At any earlier moment the output, and the output with the staged bytes, holds a prefix of each thread's stream |
| AsyncLoggers.StagingNeverOverflows | src/log/Log.cpp:105-126 | The staging buffer never overflows and has 2048 bytes of room at the start of each `retrive`, so a ring that is not empty always yields some |
| AsyncLoggers.FlushesWhenDue | src/log/Log.cpp:120-133 | The appender gets everything staged at just these moments: above 63488 bytes after a `retrive`, at the end of a scan above 2048 bytes or when the time is up, and at the end; at no other step does it get anything |
| AsyncLoggers.LittleIsStagedBetweenScans | src/log/Log.cpp:127-133 | In every run at most 2048 bytes are staged whenever the consumer is between two scans |
| AsyncLoggers.FlushBringsOutputUpToDate | src/log/Log.cpp:120-133 | After any flush nothing is staged, and of each thread's bytes the output has all but those in its ring and those not sent yet |
| AsyncLoggers.TimeUpHandsOver | src/log/Log.cpp:127-133 | In every run that holds of the end of a scan once two seconds have passed |
| AsyncLoggers.QuietScanDelivers | src/log/Log.cpp:113-133 | A scan during which nobody logs, ended when the time is up, leaves nothing accepted outside the output |
| AsyncLoggers.StoppedStepShrinksWork | src/log/Log.cpp:111-149 | After the stop every possible step lowers the measure of work left, through the scan under way and the final drain |
| AsyncLoggers.StoppedLoggerTerminates | src/log/Log.cpp:111-149 | Every run after the stop is at most as long as the work left then, wherever the consumer is |
| AsyncLoggers.ConsumerIsNeverStuck | src/log/Log.cpp:113-149 | Until it is done the consumer thread always has a step to take, before and after the stop |
| LoggerSystems.RingStep | src/log/RingBuffer.cpp:7-75 | One step of a thread inside a ring, as a step of the byte queue that the ring stands for |
| LoggerSystems.ProducerStep | src/log/Log.cpp:91-99 | A publication sends the next bytes of the record that the retry loop has still to deliver, and the consumer does not notice |
| LoggerSystems.ConsumerStep | src/log/Log.cpp:117-120 | A release takes from the front at most the room asked for, the first one at least a byte, and the producer does not notice |
| LoggerSystems.StepSimulates | src/log/Log.cpp:81-150 | Every step of the system on real rings is one step of the system on byte queues, or none |
| LoggerSystems.RunSimulates | src/log/Log.cpp:81-150 | Every run on real rings is a run on byte queues with the same logged bytes, staging buffer and output |
| LoggerSystems.LoggerDelivers | src/log/Log.cpp:81-150 | However byte copies, index loads and publications interleave, at the end each thread's bytes are in the output completely, in order and once, and nothing else is |
| LoggerSystems.LoggerIsSafe | src/log/Log.cpp:88-126 | At every moment the staging buffer holds at most 65536 bytes, every ring has 32768 slots, and on it the two copies are disjoint and inside the storage |
| LoggerSystems.FlushesWhenDue | src/log/Log.cpp:120-133 | On the real rings, too, the appender gets everything staged at the flushes that are due and nothing at any other step, byte copies and index loads included |
| LoggerSystems.LittleIsStagedBetweenScans | src/log/Log.cpp:127-133 | In every run on the real rings at most 2048 bytes are staged between two scans |
| LoggerSystems.TimeUpHandsOver | src/log/Log.cpp:127-133 | At the end of a scan with the time up nothing is staged, and what a thread logged is its part of the output, what its ring holds between the indices, and what it has not sent yet |
| LoggerSystems.StoppedStepShrinksWork | src/log/Log.cpp:111-149 | After the stop every possible step on the real rings, index loads and byte copies included, lowers the measure of work left |
| LoggerSystems.StoppedLoggerTerminates | src/log/Log.cpp:111-149 | Every run on the real rings after the stop is at most as long as the work left then |
| LoggerSystems.ConsumerIsNeverStuck | src/log/Log.cpp:113-149 | Until it is done the consumer thread on the real rings always has a step to take, whatever the producers do |
| LoggerSystems.CallGoesOn | src/log/RingBuffer.cpp:43-75 | A `retrive` beside running producers always has a next step, at any time |
| LoggerSystems.StopDelivers | src/log/Log.cpp:74-150 | `stop` may come in any state of any run in which the threads have sent their records; every run after it is at most as long as the work left then, and where it cannot go on it is done and has delivered all that was logged before the stop, completely, in order and once |
| LogConsumers.LogConsumer.Fetch | src/log/Log.cpp:119 | One `retrive` moves at least one byte from the front of a non-empty ring behind the staged ones |
| LogConsumers.LogConsumer.Stage | src/log/Log.cpp:119-124 | Counting the bytes and flushing, exactly above 63488 bytes, lose and repeat nothing |
| LogConsumers.LogConsumer.Pull | src/log/Log.cpp:119-124 | Output, staged and held bytes together stay the same, and the ring holds fewer |
| LogConsumers.LogConsumer.DrainRing | src/log/Log.cpp:117-125 | A ring without a producer is emptied, its bytes following those delivered before |
| LogConsumers.LogConsumer.DrainOneOf | src/log/Log.cpp:136-147 | Emptying one of several rings leaves what the others hold |
| LogConsumers.LogConsumer.DrainAll | src/log/Log.cpp:136-147 | The loop over all rings delivers what each held, in their order |
| LogConsumers.LogConsumer.Turn | src/log/Log.cpp:113-134 | One turn of the main loop empties the rings in order and leaves at most 2048 bytes staged, none when the time is up; as long as no more than that is staged and held, and the time is not up, the appender gets nothing |
| LogConsumers.LogConsumer.FinalDrain | src/log/Log.cpp:136-148 | The appender ends up with everything staged and then everything held, ring after ring, and all rings are empty |
| TimingWheels.VisitLowersCost | src/reactor/Timer.cpp:17-43 | One iteration, whatever its callback disables, lowers a measure that counts a firing repeating entry twice: put back into its slot it waits a round |
| TimingWheels.TickTerminatesIff | src/reactor/Timer.cpp:16-43 | For callbacks that disable any timers, a tick ends iff every enabled repeating entry due in it with a timeout below the interval is disabled by its own or another callback still to come |
| TimingWheels.QuietTickTerminatesIff | src/reactor/Timer.cpp:16-43 | When callbacks disable nothing, a tick ends iff its slot holds no such entry |
| TimingWheels.RepairedDelayIsExact | src/reactor/Timer.cpp:47-52 | With rounds counted from the cursor, slot and rounds of an entry amount to exactly its timeout in ticks |
| TimingWheels.TicksAreWholeIntervals | src/reactor/Timer.cpp:49-50 | A timeout is taken as d ticks iff it holds d whole intervals |
| TimingWheels.NewDeadlineIs | src/reactor/Timer.cpp:47-52 | An addition with a timeout of d whole intervals sets the deadline d ticks from now; as written 100 more iff `now % 100 + d % 100 >= 100` |
| TimingWheels.WrittenDelayIsOneRoundLateIff | src/reactor/Timer.cpp:47-52 | As written they amount to that or exactly 100 ticks more, the latter iff `m_cur + d % 100 >= 100` |
| TimingWheels.DeadlineOfInserted | src/reactor/Timer.cpp:47-52 | The next visit of the entry's slot and its rounds give the deadline of the flat list, for every timeout and cursor |
| TimingWheels.FiringKeepsMidSweep | src/reactor/Timer.cpp:34-42 | The entry the loop fires is the first due task of the flat list, and its renewal, even for the same tick, and what its callback disables are the flat list's, wherever in the wheel the disabled timers are |
| TimingWheels.PassingKeepsMidSweep | src/reactor/Timer.cpp:24-33 | Dropping a disabled entry and counting down a round change no deadline |
| TimingWheels.SweepFiresDue | src/reactor/Timer.cpp:16-43 | After any number of iterations the loop has fired what the flat list fires, in the same order, and holds the same later deadlines, also when entries come back to the slot being swept |
| TimingWheels.SweptIs | src/reactor/Timer.cpp:16-43 | However many iterations are counted to its end, the loop has one outcome |
| TimingWheels.TickReturnsIffFiringEnds | src/reactor/Timer.cpp:13-45 | A tick of the wheel returns iff the firings of the flat list for that tick end |
| TimingWheels.AddKeepsRefinement | src/reactor/Timer.cpp:6-10 | Adding an entry adds its deadline at the end of the flat list and nothing else |
| TimingWheels.DisableKeepsRefinement | src/reactor/Timer.h:23 | Disabling entries removes their deadlines from the flat list, wherever the wheel keeps them |
| TimingWheels.TickKeepsRefinement | src/reactor/Timer.cpp:13-45 | A tick that returns runs exactly the callbacks due, in order, except those disabled by an earlier callback of the same tick, and keeps the correspondence |
| TimingWheels.LogsAgree | src/reactor/Timer.cpp:6-52 | From related states wheel and flat list fire the same tasks in the same order at every operation of any run |
| TimingWheels.WheelRefinesDeadlines | src/reactor/Timer.cpp:6-52 | Over any run of adds, disables and ticks that return, repeating timers of any timeout included, with callbacks that disable timers as they please, the wheel fires at each tick exactly what the deadline list has due, in order; for the repaired wheel a deadline is the time of the addition plus timeout / interval |
| TimingWheels.AllowedRunReturns | src/reactor/Timer.cpp:13-45 | Every tick returns when repeating timers last at least one interval, whatever the callbacks disable |
| TimerLives.FiringKeepsTask | src/reactor/Timer.cpp:34-42 | One firing of a tick renews a task if it is its own and leaves it alone otherwise |
| TimerLives.TickKeepsLife | src/reactor/Timer.cpp:13-45 | Among arbitrary other timers and callbacks a tick fires a task exactly at its deadline and, if it repeats, sets the next one |
| TimerLives.AddedTaskFires | src/reactor/Timer.cpp:6-52 | In any run that adds a task once and never disables it, its callback is called by exactly the ticks that are its firing times, for both variants |
| TimerLives.RepairedTimerFires | src/reactor/Timer.cpp:6-52 | In milliseconds: with d whole intervals in its timeout, a one-shot timer fires in exactly one tick, d ticks after its addition, and a repeating one in every d-th tick from then on |
| TimerLives.WrittenTimerFires | src/reactor/Timer.cpp:6-52 | As written a one-shot timer fires in exactly one tick, d or d + 100 ticks after its addition, the latter iff `start % 100 + d % 100 >= 100` |
| TimerLives.DisabledTimerIsSilent | src/reactor/Timer.cpp:24-42 | Once an operation, or a callback of a tick, has disabled a task, neither that tick after the callback nor any later operation calls it, unless it is added again |
| TimerObjects.TimerEntry.constructor | src/reactor/Timer.h:16-21 | A new entry is enabled and has no rounds to wait |
| TimerObjects.TimerEntry.Disable | src/reactor/Timer.h:23 | Only the flag changes |
| TimerObjects.TimingWheel.constructor | src/reactor/Timer.h:52 | A new wheel is the empty one |
| TimerObjects.TimingWheel.PushEntry | src/reactor/Timer.cpp:47-52 | Round and slot of an inserted entry, behind the entries already there |
| TimerObjects.TimingWheel.Add | src/reactor/Timer.cpp:6-10 | On shared entries the call does what the value model says, and each entry stays in one slot once |
| TimerObjects.TimingWheel.Erase | src/reactor/Timer.cpp:24-28 | Exactly the entry at the index leaves the wheel |
| TimerObjects.TimingWheel.CountDown | src/reactor/Timer.cpp:29-33 | Exactly the entry at the index loses a round |
| TimerObjects.TimingWheel.RunCallback | src/reactor/Timer.cpp:36 | A callback that disables shared entries, held by the wheel or not, changes their flags in all slots and nothing else |
| TimerObjects.TimingWheel.FireEntry | src/reactor/Timer.cpp:36-41 | A fired entry runs its callback, leaves its place and, if it repeats, comes back at the end of its new slot, disabled if a callback said so |
| TimerObjects.TimingWheel.VisitEntry | src/reactor/Timer.cpp:17-43 | One iteration on the list and index is one step of the value model's sweep; at most the visited entry leaves, and only if disabled or fired for the last time |
| TimerObjects.TimingWheel.SweepSlot | src/reactor/Timer.cpp:16-43 | Whenever the value model's sweep ends the loop does, and fires, keeps and moves what the sweep does |
| TimerObjects.TimingWheel.Tick | src/reactor/Timer.cpp:13-45 | A tick on objects is a tick of the value model; no entry is duplicated, none appears, and none leaves the wheel but disabled ones and fired one-shot ones |
| TimerObjects.DisableThroughHandle | src/reactor/Timer.h:23 | Disabling an entry through another reference is seen by the wheel that holds it, and changes no other entry |
| IdleConnections.IdleConnectionWheel.Add | src/net/IdleConnections.cpp:15-23 | A new entry gets its only reference in the current slot |
| IdleConnections.IdleConnectionWheel.Update | src/net/IdleConnections.cpp:25-30 | An update adds a reference in the current slot |
| IdleConnections.IdleConnectionWheel.UpdateIdleConn | example/EchoServer.h:73-79 | The guarded update is the specification's update, also for an entry that is gone |
| IdleConnections.IdleConnectionWheel.Tick | src/net/IdleConnections.cpp:32-45 | Clearing a slot reference by reference runs the destructor of each entry that loses its last one, once |
| IdleConnections.TickKeepsRefinement | src/net/IdleConnections.cpp:32-45 | After a tick every remaining entry is one tick older and still in the slot of its last activity |
| IdleConnections.TickDropsOldest | src/net/IdleConnections.cpp:7-45 | The entries destroyed by a tick are those whose age reaches 60 |
| IdleConnections.StepKeepsRefinement | src/net/IdleConnections.cpp:15-45 | Every operation on the reference wheel is the same operation on the last-activity map, destroying the same entries |
| IdleConnections.WheelRefinesActivity | src/net/IdleConnections.cpp:7-45 | After any run an entry is referenced iff the activity map holds it, and each operation destroys what the map expires |
| IdleConnections.QuietEntryExpires | src/net/IdleConnections.cpp:7-45 | An entry no longer updated is referenced for fewer than 60 ticks since its last activity and destroyed by exactly the 60th |
| IdleConnections.DeadEntryStaysDead | example/EchoServer.h:73-79 | A destroyed entry is never referenced or destroyed again, whatever is sent to it |
| IdleExpiry.ExactFiringSpan | src/reactor/Timer.cpp:36-51 | In the repaired wheel the idle timer fires every tick |
| IdleExpiry.WrittenFiringSpan | src/reactor/Timer.cpp:36-51 | In the written wheel a stretch of up to 100 firings is longer by 100 ticks iff it crosses the end of the wheel |
| IdleExpiry.TimerStepKeepsIdle | src/reactor/Timer.cpp:34-42 | Any operation of the timing wheel keeps the idle timer's single deadline, and calls its callback exactly at that deadline |
| IdleExpiry.StepKeepsPace | example/EchoServer.h:35-79 | One operation on the two wheels is one operation of the plan, a deadline and a last-activity map, and destroys the same connections |
| IdleExpiry.RunKeepsPace | example/EchoServer.h:35-79 | The same over any run |
| IdleExpiry.AllowedRunReturns | src/reactor/Timer.cpp:13-45 | The wheel ticks of a server return when its repeating timers last at least one interval |
| IdleExpiry.SilentStep | src/net/IdleConnections.cpp:32-45 | An operation that is not a message of the connection keeps the wheel tick of its expiry until that tick comes |
| IdleExpiry.SilentConnectionExpires | example/EchoServer.h:35-79 | From any state in step, a silent connection is destroyed by exactly one operation, the wheel tick of the firing at which its age reaches 60 |
| IdleExpiry.ExpiredStaysExpired | src/net/IdleConnections.cpp:7-45 | Once expired, a connection is in no later log entry of the composed run |
| IdleExpiry.ExpirySpan | src/net/IdleConnections.cpp:32-45 | The 60th idle firing after one at tick t is 60 ticks later in the repaired wheel; as written 60 or 160, by the cursor at t |
| IdleExpiry.SilentSinceFiringExpires | example/EchoServer.h:35-79 | Both together, for a connection silent since the idle firing at tick t |
| IdleExpiry.StartsInStep | example/EchoServer.h:35-37 | Adding the idle timer to fresh wheels puts both wheels in step with the plan |
| IdleExpiry.LastFiringMoves | src/reactor/Timer.cpp:36-51 | The last idle firing before any wheel tick, in closed form: the written wheel skips every other round |
| IdleExpiry.SilentConnectionExpiresFromStart | example/EchoServer.h:35-79 | In any run of a freshly started server whose ticks return, with arbitrary other timers, callbacks and connections, a connection whose last activity is the k-th operation is destroyed by exactly one later operation, the wheel tick 60 (or 160) after the last idle firing before that activity |
| Buffers.StepConserves | src/Buffer.cpp:9-80 | One operation: held and accepted bytes are the bytes handed out and still held, also when it truncates, fails or resets the pointers |
| Buffers.RunConserves | src/Buffer.cpp:9-80 | The same over any run of appends and writes |
| Buffers.RoomComesBack | src/Buffer.cpp:9-80 | In every run from a new buffer the room is the total less what was accepted since it was last empty, all of it when nothing is held, and an append takes the longest prefix that fits |
| Buffers.RunHandsWhatIsTaken | src/Buffer.cpp:64-80 | As many bytes are handed over as the kernel says it took |
| Buffers.BufferBase.constructor | src/Buffer.h:13-19 | A new buffer of the given size is empty |
| Buffers.BufferBase.QueriesMeasureValue | src/Buffer.h:49-72 | The pointer queries measure the bytes held and the room behind them |
| Buffers.BufferBase.Clear | src/Buffer.h:74-78 | Both pointers go back to the start |
| Buffers.BufferBase.Append | src/Buffer.cpp:9-29 | In both branches as much as fits is appended behind the held bytes and its length returned; lengths of 0 and below do nothing |
| Buffers.BufferBase.AppendChar | src/Buffer.cpp:31-40 | One character is appended if there is room |
| Buffers.BufferBase.ReadIn | src/Buffer.cpp:49-61 | What the kernel delivers is appended; a failed read changes nothing |
| Buffers.BufferBase.WriteOut | src/Buffer.cpp:64-80 | What the kernel takes leaves from the front, as many bytes as it says; a failed write changes nothing, a partial one gives no room back, and an emptied buffer has all its room again |
| WritePath.StepConserves | src/net/TCPConnection.cpp:67-134 | Every step keeps accepted bytes equal to handed ones followed by buffered ones |
| WritePath.RunIsBufferRun | src/net/TCPConnection.cpp:67-134 | Behind every run of senders and loop is a run of the buffer on its own that accepts and hands over the same bytes |
| WritePath.MessageIsTakenAsFarAsItFits | src/net/TCPConnection.cpp:70-77 | In every run a message is taken up to its longest prefix that fits into the room, which is the whole buffer when nothing is held |
| WritePath.HandedIsWhatWasTaken | src/net/TCPConnection.cpp:116 | In every run the kernel was handed as many bytes as its answers say |
| WritePath.MasksFollowLastWriter | src/net/TCPConnection.cpp:79-133 | In every run the event's mask is {In, Pri}, with Out iff a sender was the last to write it, and the kernel has the same mask unless a request is queued or somebody is about to hand it over |
| WritePath.RunKeepsCount | src/reactor/EventLoop.cpp:130-145 | The queued modify requests are those made by foreign threads less those applied, and every sender is where its last action left it |
| WritePath.SenderStepKeepsInv | src/net/TCPConnection.cpp:67-81 | The four steps of a sender, interleaved with others that overwrite the event mask, forget no buffered byte |
| WritePath.LoopStepKeepsInv | src/net/TCPConnection.cpp:108-134 | Nor do sending, disarming and applying queued requests in the loop thread |
| WritePath.WritePathIsLive | src/net/TCPConnection.cpp:67-134 | In every interleaving buffered bytes have a sender that has yet to arm EPOLLOUT, or EPOLLOUT is in the event's mask and that mask is in the kernel, queued or about to be requested; and no byte is lost or repeated |
| WritePath.WrittenHandlerStrandsIff | src/net/TCPConnection.cpp:108-134 | Whatever other threads do before, between and after the handler's read and write of the mask: after a send that accepted nothing the bytes are stranded iff no sender has yet to arm EPOLLOUT when the mask is written |
| WritePath.WrittenHandlerIsLiveIff | src/net/TCPConnection.cpp:108-126 | The written handler keeps its bytes reachable in every overlap with other threads iff its send accepted at least one byte |
| WritePath.SomeOverlapStrands | src/net/TCPConnection.cpp:117-126 | After a send that accepted nothing there is always an overlap that strands the bytes |
| WritePath.WrittenHandleWriteIsLiveIff | src/net/TCPConnection.cpp:108-126 | The undisturbed handler, whose condition can be seen before the call: with data buffered, in every state of the invariant, the bytes stay reachable iff the send accepted at least one byte or some sender has yet to arm EPOLLOUT, and are stranded otherwise |
| WritePath.HandlerDisarmsIff | src/net/TCPConnection.cpp:108-134 | An undisturbed handler leaves EPOLLOUT in neither mask iff nothing is left to send or, as written, the send accepted nothing; otherwise both masks stay; and the accepted bytes leave the buffer |
| WritePath.HandlerGoesOnIff | src/net/TCPConnection.cpp:117-133 | In just these cases does the handler go on to read and write the mask |
| WritePath.ReturnIsArmedIff | src/net/TCPConnection.cpp:122-133 | With any steps of other threads in between, a handler that disarms returns with EPOLLOUT in the masks, and then in both, iff a sender armed it after the handler wrote the mask |
| WritePath.StrandedForGood | src/net/TCPConnection.cpp:67-134 | Stranded bytes stay where they are through every run without a new message, requests of other senders included |
| WritePath.WritePathIsLiveOrStranded | src/net/TCPConnection.cpp:67-134 | In every run of either variant, whatever the sends return, buffered bytes are reachable or stranded whenever the loop is outside `handleWrite` |
| WritePath.LiveBytesCanBeSent | src/net/TCPConnection.cpp:67-134 | From every live state the threads already under way and the poll get all buffered bytes to the kernel, without another message |
| WritePath.CanBeSentIffLive | src/net/TCPConnection.cpp:67-134 | In every run, outside the handler, buffered bytes can reach the kernel without another message iff they are live |
| WritePath.RepairedHandleWriteIsLive | src/net/TCPConnection.cpp:108-134 | The repaired handler keeps it whatever its send returns |
| WritePath.WrittenCanStrandAMessage | src/net/TCPConnection.cpp:117-126 | A run of the written code that ends with a buffered message and nothing left to send it |
| WritePath.ArmedSenderDoesNotHelp | src/net/TCPConnection.cpp:79-126 | A sender that armed EPOLLOUT before the failing send leaves the bytes stranded with its request |
| WritePath.ArmInsideHandlerIsLost | src/net/TCPConnection.cpp:79-126 | The last sender to arm EPOLLOUT, if it does so between the handler's read and write of the mask, leaves the bytes stranded, its request included, although the undisturbed handler would have kept them reachable |
| WritePath.WrittenCanLoseAnArm | src/net/TCPConnection.cpp:117-126 | A run of the written code from its start that comes to such a state |
| EventLoops.ExecuteAllKeepsSync | src/reactor/EventLoop.cpp:111-169 | Any mix of requests keeps the kernel's interest list equal to the events marked as polling |
| EventLoops.LastRequestWins | src/reactor/EventLoop.cpp:111-169 | Whether an event is registered after a run of requests is decided by the last add or remove of it |
| EventLoops.OthersAreLeftAlone | src/reactor/EventLoop.cpp:111-169 | A request about one event changes neither registration nor masks of another |
| EventLoops.EventsAreIndependent | src/reactor/EventLoop.cpp:111-169 | What becomes of an event in a run of requests depends on the requests about it alone |
| EventLoops.MaskOfLastRequest | src/reactor/EventLoop.cpp:111-145 | The kernel has the mask that the event wanted at the addition that began its polling or at a modification since, whatever mask changes and requests follow |
| EventLoops.LastMaskIsWanted | src/reactor/Event.cpp:12-20 | The mask an event wants is the one it was last set to |
| EventLoops.StepKeepsInv | src/reactor/EventLoop.cpp:35-145 | Every step of a foreign thread or the loop, mask changes included, keeps the hand-off invariant |
| EventLoops.HandOffIsCorrect | src/reactor/EventLoop.cpp:35-169 | In every interleaving no wakeup is lost, functors run once and in push order, kernel and flags agree, and a mask the kernel lacks has a modify request queued or still to be made |
| EventLoops.DrainLeavesNothing | src/reactor/EventLoop.cpp:51-60 | A finished drain has run everything pushed before it, and the kernel has the wanted mask of every polled event whose last change was followed by a modify request |
| EventLoops.RequestedMaskArrives | src/reactor/EventLoop.cpp:51-145 | In every interleaving, a mask not changed after a modify request for it, direct or queued by any thread, is in the kernel at the end of a later drain, if its event is polled |
| EventLoops.WritesAreCounted | src/reactor/EventLoop.cpp:38-109 | The eventfd counts the writes since the loop last read it, and a thread still has to write it iff its last action was a push |
| EventLoops.WorkGetsDone | src/reactor/EventLoop.cpp:38-70 | From every state of every run the loop, woken by the eventfd alone, comes to have run everything pushed so far |
| EventLoops.EventLoop.RunInLoop | src/reactor/EventLoop.cpp:85-109 | In the loop thread the functor runs at once; elsewhere it is queued behind the others and the eventfd is raised; a queue that is not empty always has the eventfd raised |
| EventLoops.EventLoop.Add | src/reactor/EventLoop.cpp:111-128 | Registration, direct with the event's current mask in the kernel, or deferred with the loop woken |
| EventLoops.EventLoop.Modify | src/reactor/EventLoop.cpp:130-145 | The kernel gets the event's current mask, or the request is queued and the loop woken; which events are polled does not change, nor anything about the other events |
| EventLoops.EventLoop.Remove | src/reactor/EventLoop.cpp:147-169 | Neither kernel nor flag has the event any more, or the removal is queued and the loop woken |
| EventLoops.EventLoop.SetEventMask | src/reactor/Event.cpp:12-20 | A mask change alone does not reach the kernel |
| EventLoops.EventLoop.DoPending | src/reactor/EventLoop.cpp:51-60 | The queue is run front to back, once, and is empty afterwards |
| EventLoops.EventLoop.Turn | src/reactor/EventLoop.cpp:38-70 | One turn of the loop, with or without the eventfd reported, leaves nothing queued: the direct requests and then the queued ones ran once in order, and the counter is taken whole exactly when it was reported |
| EventLoops.DeferredEqualsDirect | src/reactor/EventLoop.cpp:51-169 | Queueing requests and draining once leaves the registrations that running them directly leaves |
| Connections.DispatchCalls | src/reactor/Event.cpp:27-67 | For every mask a dispatch makes a single close call and no other, or the message and write calls the mask asks for |
| Connections.DispatchOutcome | src/net/TCPConnection.cpp:90-134 | From the report alone: a dispatch closes, and makes no other call, iff the mask hangs up or a readable report found the end of the stream or a reset; otherwise it delivers exactly what arrived, nothing only after a failed read, sends what the kernel takes, and keeps EPOLLOUT only while there is more to send |
| Connections.CallbackTraceIsWellFormed | src/reactor/Event.cpp:27-67 | Over all reports the callbacks are messages and writes, then at most one close, nothing after it; closed iff no longer polled |
| Connections.EveryByteIsDelivered | src/net/TCPConnection.cpp:90-106 | Over all reports the messages hold every byte that arrived while the connection was open, in order and once |
| Connections.TCPConnection.DisableTimers | src/net/TCPConnection.cpp:143-150 | Every timer that still exists is disabled and nothing else about it changes |
| Connections.TCPConnection.HandleClose | src/net/TCPConnection.cpp:136-154 | The reported mask is cleared, the event deregistered, the timers disabled, the callback made |
| Connections.TCPConnection.HandleRead | src/net/TCPConnection.cpp:90-106 | A successful read of nothing, or a reset, closes and ends polling; anything else delivers exactly the bytes that arrived and empties the read buffer |
| Connections.TCPConnection.HandleWrite | src/net/TCPConnection.cpp:108-134 | The accepted bytes leave the buffer; with nothing left, or as written a send that accepted nothing, EPOLLOUT leaves the event's mask and, while polled, the kernel's; otherwise both stay |
| Connections.TCPConnection.HandleEvent | src/reactor/Event.cpp:27-67 | On a connection object with its buffers and timers the dispatcher does what the value model says; a close disables all timers, anything else leaves them |
| BlockingQueues.StepKeepsInv | src/BlockingQueue.cpp:5-33 | Every step, with spurious wakeups and late consumers, keeps items and woken consumers balanced |
| BlockingQueues.NoLostWakeup | src/BlockingQueue.cpp:5-33 | While a consumer sleeps, there are no more items than woken consumers and the thread inside the lock account for, and with the mutex free a woken consumer can go on; items leave in order, once |
| BlockingQueues.TakeReturnsOldest | src/BlockingQueue.cpp:23-33 | A consumer at its test takes the oldest item iff there is one, and otherwise waits |
| BlockingQueues.ConsumersMove | src/BlockingQueue.cpp:23-33 | In every run a consumer is at its test, asleep, woken or away as its own actions and the wake-ups of it say |
| BlockingQueues.WaitingConsumerGetsItem | src/BlockingQueue.cpp:5-33 | From every state of every run an item that is queued while a consumer waits gets to one, through the threads already at it |
| Decimals.DecimalIsCanonical | src/Util.cpp:4-27 | The decimal form of every integer parses back to it and has no superfluous zero or sign |
| Decimals.CanonicalIsUnique | src/Util.cpp:4-27 | No other string is canonical and parses to the same value |
| Decimals.TruncationSplits | src/Util.cpp:14-15 | Truncating division and remainder split a value of either sign, digit for digit like its absolute value |
| Decimals.MirroredTable | src/Util.cpp:4-5 | The mirrored table gives the digit for remainders of either sign |
| Decimals.DigitMoves | src/Util.cpp:12-17 | One round of the loop moves the last digit left over to the end of the characters written |
| Decimals.WriteDigit | src/Util.cpp:14-16 | One character is written and the value divided, for values of either sign |
| Decimals.WriteDigits | src/Util.cpp:12-17 | The loop writes the digits last one first, for values of either sign and for 0 |
| Decimals.WriteReversed | src/Util.cpp:12-22 | Digits and sign stand in the buffer in reverse, and nothing behind them changes |
| Decimals.ReversePrefix | src/Util.cpp:24 | The in-place reversal of the written characters, leaving the rest of the buffer alone |
| Decimals.Convert | src/Util.cpp:7-27 | The buffer holds the decimal form and its terminator, nothing behind it changes, and the length is returned |
| Decimals.ConvertRoundTrips | src/Util.cpp:7-27 | For every value, the smallest included, what was written is canonical and parses back |

## Left out

- The C++ memory model: loads and stores of the two atomic indices are sequentially consistent steps, and a copied byte is
  visible once the index behind it is.
- Creation of a thread's ring: one atomic step. The lookup at src/log/Log.cpp:84 reads the map without the lock; races there
  and with the consumer's iteration over the map are outside the model.
- AsyncLoggers.OutputIsInterleaving: the written retry loop is followed only for records that the accepting call finds room
  for as a whole; for others `AsyncLoggers.WrittenRetryDeliversIff` shows that it repeats bytes.
- LoggerSystems.LoggerDelivers: the same restriction on the written retry loop.
- RingProtocol.Safety: the written append is entered only when its guard holds at the load; otherwise
  `RingBuffers.WrittenAppendIsCorrectIff` shows what breaks.
- Integer width: indices, sizes, rounds and counters are unbounded. They stay below the capacities, far from the limits of
  `int`, except for `m_cur + m_timeoutms / m_interval` with an absurdly long timeout.
- System calls: epoll is a map from events to masks in which valid requests succeed, the eventfd a counter, reads and sends
  answer with any result the kernel may give. Time, files, and the clock behind the logger's two-second rule are choices
  of the environment.
- Timers: callbacks that add timers during a tick, the same entry added twice, negative timeouts, and timers added by other
  threads (a functor like any other). The test for empty list cells at src/reactor/Timer.cpp:19 has no counterpart, because
  inserting dereferences the entry.
- TimingWheels.TickTerminatesIff: callbacks may disable any timers but add none.
- TimingWheels.WheelRefinesDeadlines: callbacks may disable any timers but add none. A tick that does not return has no
  outcome to compare; `TimingWheels.TickTerminatesIff` says when that is.
- TimerLives.AddedTaskFires: a repeating timer with a timeout below the interval is left out. Unless it is disabled, the tick
  that fires it does not return (`TimingWheels.TickTerminatesIff`).
- IdleExpiry.SilentConnectionExpiresFromStart: the idle timer itself is neither disabled nor added a second time.
- TimerObjects.TimingWheel.Tick: what the callbacks disable is given as one set of entries per callback, and an entry is
  told from others by its id.
- The idle wheel destroys an entry with its last slot reference: the short-lived reference of a caller inside `update` is
  not counted. The shutdown that the destructor starts (src/net/IdleConnections.cpp:10-12) is not followed into the
  connection, so callback traces are those of runs without idle expiry.
- EventLoops.HandOffIsCorrect: functors run by the drain do not queue others (the lock would not allow it from another thread, and
  the loop thread would extend the vector it iterates), and start only after the loop knows its thread id. The quit flag is
  not modelled.
- EventLoops.EventLoop.Add: its precondition is the assertion of the source; likewise for `Modify`.
- Connections: message callbacks do not read `m_rbuf` partially or change the registration themselves; `sendMsg` from a callback is
  covered by `WritePath`, where the loop thread is one of the senders. Edge-triggered mode is not used by connections.
- Connection setup, shutdown and `addToLoop`, Acceptor, Connector, TCPServer, TCPClient, InetAddress, the thread pool and the
  HTTP declarations: wiring.
- Logger formatting, level filtering, the synchronous logger, log file rotation.
- BlockingQueue: only as a protocol, because its point is the interleaving; `put` of a temporary differs from `put` only by a move.
  `size` is left out.
- Decimals.Convert: the caller provides the room, as in the source.
- Buffers: `bzero`, allocation limits, and the forwarding overloads of `append`.
