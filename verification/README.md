# A model of the game server's runtime core

The repository is a Mahjong and poker server on skynet, an actor runtime in C. This project models the parts of it
that carry the hardest promises and proves them for all inputs, all interleavings or all runs.

* **Timer wheel** (`TimerWheel.dfy`): the five-level wheel as a class over slot lists. It refines an agenda from due
  times to events; `Drive` states what fires over every interleaving of requests and ticks.
* **Pattern compiler** (`Charsets`, `Peg*`): matching semantics, the conservative analyses, the virtual machine, the code
  generator with all its rewrites, in-place emission with patching, and the jump optimizer. Compiled patterns match
  exactly as the semantics says.
* **Message scheduler** (`Scheduler*`, `MessageQueue`): workers, senders, launches and retirements as a transition system
  over critical sections, with the ring buffer and the global list as classes; what never goes wrong, what each operation
  gets done, that every run can be completed, and in which order queues and messages pass.
* **Long arithmetic** (`Digits`, `Montgomery`, `BigInt*`, `Quorem`, `Bigints`): Montgomery exponentiation on 15-bit digits
  down to the digit loops of division, squaring and multiplication; 32-bit words with one-correction division and cached
  powers of five.
* **Shared tables** (`Shared*`): the two-pass collision layout, lookup and iteration.
* **Socket write queues** (`Socket*`): two priorities under every pattern of partial writes.
* **Reader/writer lock and copy on update** (`Stm*`): one step per memory operation, any number of threads; no copy is
  freed in use, every update and read takes effect at one of its own steps, and no state is a deadlock.
* **WebSocket deframing** (`WebSocket*`), **harbor links** (`Harbor*`), **SHA-1 and HMAC** (`Sha1*`), **key exchange and
  DES** (`DiffieHellman`, `Des*`), **serialisation** (`Serialize*`): when chunking matters, fast forms against the
  standards, round trips.

`dafny verify dfyconfig.toml` checks everything.

## Where the code does not keep its promise

Each of these is modelled as written, with an example and the condition under which the promise holds.

* `mont_` keeps one digit too few when `n` has a single leading zero. `Montgomery.ProductExact` says exactly when the
  result is right, `OneSpareDigitFails` gives an input. This is why `powMod` needs its `trim`, as a comment there wonders.
  A condition on `n` alone for all `x` and `y` would turn on the largest partial sum over all pairs, which has no simple
  form between twice `n` fitting the kept digits (`RoomyFits`) and `n` filling them.
* `greaterShift` starts both scans one column early. `BigIntCompare.GreaterShift` is right exactly outside `Misjudged`;
  `SmallerFoundGreater` gives an input.
* `divide_` can therefore take a divisor without a leading zero digit from a smaller remainder, although its comment
  allows such divisors. The result of `BigIntDivide.Divide` says exactly when; `BigIntModular.StuckExample` gives an input.
  The model stops there: the source goes on subtracting in the width of the array, and whatever number of subtractions
  it makes, quotient and remainder no longer make up the dividend (`BigIntDivide.Overshoot`).
* `powMod_` with an even modulus goes wrong in three ways: `copy_` cuts the base to the digits of `n`, `leftShift_` cuts
  its square, and an estimate held at the largest digit makes `divide_` leave a number too long for the `copy_` that
  follows. `BigIntPowEven.EvenRight` says for every base and modulus when every exponent comes out right, `SettledRight`
  and `UncloggedRight` bound what has to be looked at; `CutBaseFails`, `SquareCutFails` and `HeldEstimateFails` give an
  input for each cause.
* `skynet_context_new` uses the context after it has released its reference. `SchedulerLaunch.UnsafeLaunch` is a run in
  which another thread deletes the context first, `LaunchExact` and `LaunchSafe` say when that cannot happen.
* `send_buffer` fails its last assertion when the kernel stops between two low packages (`SocketRun.BoundaryCut`).
* A WebSocket header over the size limit can make the result depend on how the stream is cut
  (`WebSocketLengths.OverLimitLosesBytes`). A 64-bit length with bit 31 set is read as negative: as a header short of
  bytes, or as a request for that much memory (`MinusOneStuck`, `NegativeLengthFails`).
  `WebSocketChunks.CuttingExact` gives the exact condition on a stream, `PlainNeverFails` one against failure alone.
* `sat_SHA1_Update` counts a carry that is not there for most pieces of 2^29 bytes and more (`Sha1Stream.WholeCounts`,
  `StreamedExact`).
* `ldesdecode` reads before its buffer for an eight-byte text that decrypts to zeros (`Des.ReadsBeforeBuffer`), and
  `lindexconf` answers an integer key outside the range of int as another key (`SharedConf.CastExact`).
* A harbor sends messages of 2^24 bytes and more, and closes the link when it receives one (`HarborFrames.FrameBack`).
* `powmodp` leaves P to the first power unreduced (`DiffieHellman.PowModExact`).

## Model

| member | source | states |
|---|---|---|
| `TimerWheel.ChooseSlot` | skynet/skynet-src/skynet_timer.c:74-92 | the masks of add_node pick the slot given by the first base-64 digit in which expiry and time differ |
| `TimerWheel.SlotByDigits` | skynet/skynet-src/skynet_timer.c:74-92 | the slot of a timer is decided by the highest digit in which its expiry differs from the clock, down to the near wheel |
| `TimerWheel.FindCascade` | skynet/skynet-src/skynet_timer.c:118-138 | the mask loop of timer_shift finds a list to cascade exactly on a near-wheel boundary, and it is the list of the digit that changed |
| `TimerWheel.CarryDigits` | skynet/skynet-src/skynet_timer.c:118-138 | when the clock carries into a digit, all lower digits were full, all higher ones stay, that one grows by one |
| `TimerWheel.StableOffBoundary` | skynet/skynet-src/skynet_timer.c:118-138 | off a boundary a tick moves no node: the slot add_node would choose stays the same |
| `TimerWheel.StableOffCascade` | skynet/skynet-src/skynet_timer.c:118-138 | on a boundary only nodes of the cascaded list change slot, every other pending expiry keeps its slot |
| `TimerWheel.NoLowerNodes` | skynet/skynet-src/skynet_timer.c:118-138 | when the digits of the clock below k are full, every pending expiry differs from it in some digit from k up |
| `TimerWheel.MovesOnlyCascade` | skynet/skynet-src/skynet_timer.c:108-138 | across a tick, a pending expiry outside the cascaded list is where add_node would put it for the new time |
| `TimerWheel.LaidAdvance` | skynet/skynet-src/skynet_timer.c:118-138 | moving the clock keeps every list equal to the pending events of the slot for the previous time, with all delays still within the horizon |
| `TimerWheel.DrainLaid` | skynet/skynet-src/skynet_timer.c:159-170 | emptying the current near list removes exactly the events due now and keeps the layout |
| `TimerWheel.AddLaid` | skynet/skynet-src/skynet_timer.c:95-106 | linking a node at the tail of the slot for its expiry is entering the event in the agenda at clock plus delay |
| `TimerWheel.NothingOverdue` | skynet/skynet-src/skynet_timer.c:172-184 | between two updates nothing is due for the present tick, so the first execute of an update finds nothing |
| `TimerWheel.EnterAllDue` | skynet/skynet-src/skynet_timer.c:95-106 | entering requests appends, for each due time, the requests for it in the order they came |
| `TimerWheel.SetForCounts` | skynet/skynet-src/skynet_timer.c:141-157 | what fires at a tick holds each event as often as it was booked for that tick |
| `TimerWheel.Timer.constructor` | skynet/skynet-src/skynet_timer.c:187-208 | an empty wheel stands for an empty agenda |
| `TimerWheel.Timer.AddNode` | skynet/skynet-src/skynet_timer.c:74-92 | the node is appended to the one list that the slot function names; all other lists stay |
| `TimerWheel.Timer.MoveList` | skynet/skynet-src/skynet_timer.c:108-116 | re-adding a cascaded list restores the layout for the new time |
| `TimerWheel.Timer.Shift` | skynet/skynet-src/skynet_timer.c:118-138 | the clock advances by one, across wrap-around too, and every node is again where add_node would put it |
| `TimerWheel.Timer.TimerAdd` | skynet/skynet-src/skynet_timer.c:95-106 | the agenda gains the event at clock plus delay, after all events already there |
| `TimerWheel.Timer.Timeout` | skynet/skynet-src/skynet_timer.c:211-231 | a delay of 0 or less is answered at once and never enters the wheel; otherwise the agenda gains the event |
| `TimerWheel.Timer.Execute` | skynet/skynet-src/skynet_timer.c:159-170 | dispatches exactly the events due now, in order, with requests made while the lock is open entered afterwards |
| `TimerWheel.Timer.Update` | skynet/skynet-src/skynet_timer.c:172-184 | one tick fires exactly the events of the new time in insertion order and removes them from the agenda |
| `TimerWheel.Drive` | skynet/skynet-src/skynet_timer.c:73-231 | over every interleaving of requests and ticks, tick k fires exactly the timers booked for it, each once, in insertion order, across uint32 wrap-around |
| `Charsets.CharsetType` | skynet/3rd/lpeg/lpcode.c:41-82 | classifies a charset as fail, any, a single character or a set, matching the unique kind its membership has |
| `Charsets.KindUnique` | skynet/3rd/lpeg/lpcode.c:41-82 | the kind of a charset is determined by which characters it contains |
| `Charsets.ComplementContains` | skynet/3rd/lpeg/lpcode.c:88-90 | complement, read as membership |
| `Charsets.DisjointExact` | skynet/3rd/lpeg/lpcode.c:97-102 | the bytewise test holds if and only if no character is in both sets |
| `Peg.Conservative` | skynet/3rd/lpeg/lpcode.c:196-273 | nullable, nofail and fixedlen are sound for every pattern, subject and position |
| `Peg.ExactOnEmpty` | skynet/3rd/lpeg/lpcode.c:196-367 | for patterns without predicates nullable, nofail and the result of getfirst each hold if and only if the pattern matches the empty subject |
| `Peg.FirstSound` | skynet/3rd/lpeg/lpcode.c:294-367 | a match that goes on with a character of the follow set starts with a character of getfirst |
| `Peg.FirstNonEmpty` | skynet/3rd/lpeg/lpcode.c:294-367 | a result of 0 from getfirst means that the pattern fails at the end of the subject |
| `Peg.HeadFailSound` | skynet/3rd/lpeg/lpcode.c:377-401 | headfail: the pattern succeeds whenever the next character is in its first set, and never at the end |
| `Peg.HeadFailExact` | skynet/3rd/lpeg/lpcode.c:377-401 | headfail(p) implies that p succeeds if and only if the next character is in getfirst(p, full) |
| `Peg.ToCharsetSound` | skynet/3rd/lpeg/lpcode.c:107-127 | a tree turned into a charset matches one character of that set and nothing else |
| `PegMachine.OneOutcome` | skynet/3rd/lpeg/lpvm.c:149-295 | the matching machine is deterministic: two final configurations of one program and subject are equal |
| `PegMachine.ReachesTrans` | skynet/3rd/lpeg/lpvm.c:149-295 | runs of the machine compose |
| `PegCorrect.OutsideFirst` | skynet/3rd/lpeg/lpcode.c:294-367 | a character outside the first set rules out every match that a continuation within the follow set could use |
| `PegCorrect.NoSecondChance` | skynet/3rd/lpeg/lpcode.c:677-712 | with disjoint first sets, once the first alternative has started the second cannot lead to success |
| `PegCorrect.EarlyFail` | skynet/3rd/lpeg/lpcode.c:677-712 | a failed test on the first character means that the alternative could only have failed |
| `PegCorrect.SeqCorrect` | skynet/3rd/lpeg/lpcode.c:899-911 | a sequence with the test handed on to its first part matches as the sequence does |
| `PegCorrect.TestedChoiceCorrect` | skynet/3rd/lpeg/lpcode.c:677-693 | the test-and-jump form of a choice, without a backtrack entry, matches as the ordered choice does before any continuation within the follow set |
| `PegCorrect.PartialChoiceCorrect` | skynet/3rd/lpeg/lpcode.c:694-698 | the optional form with a partial commit matches as the choice with the empty pattern does |
| `PegCorrect.PlainChoiceCorrect` | skynet/3rd/lpeg/lpcode.c:699-711 | the backtracking form with its optional early test matches as the ordered choice does |
| `PegCorrect.SpanCorrect` | skynet/3rd/lpeg/lpcode.c:777-783 | a repeated charset compiled to a span matches the longest run |
| `PegCorrect.TestedRepCorrect` | skynet/3rd/lpeg/lpcode.c:784-794 | the test-and-jump loop without backtracking matches as the repetition does |
| `PegCorrect.RepLoop` | skynet/3rd/lpeg/lpcode.c:795-811 | each round of the partial-commit loop keeps one backtrack entry at the last good position |
| `PegCorrect.PlainRepCorrect` | skynet/3rd/lpeg/lpcode.c:795-811 | the partial-commit loop matches as the repetition does |
| `PegCorrect.HeadNotCorrect` | skynet/3rd/lpeg/lpcode.c:823-828 | a negated pattern with headfail compiles to a test, with the meaning of the predicate |
| `PegCorrect.PlainNotCorrect` | skynet/3rd/lpeg/lpcode.c:829-836 | choice, pattern and fail-twice mean the negative predicate |
| `PegCorrect.FixedAndCorrect` | skynet/3rd/lpeg/lpcode.c:720-726 | a positive predicate over a fixed length steps back by that length |
| `PegCorrect.PlainAndCorrect` | skynet/3rd/lpeg/lpcode.c:727-735 | choice, pattern and back-commit mean the positive predicate |
| `PegCorrect.BehindCorrect` | skynet/3rd/lpeg/lpcode.c:659-663 | looking behind moves back by the fixed length or fails |
| `PegCorrect.GenCorrect` | skynet/3rd/lpeg/lpcode.c:919-944 | for every accepted pattern, follow set and inherited test, the generated code does what the pattern means, whatever surrounds it |
| `PegCorrect.CompileCorrect` | skynet/3rd/lpeg/lpcode.c:1005-1006 | the machine on the generated program with its end instruction reaches acceptance at the position the semantics gives, or rejection when it gives none |
| `PegCorrect.CompileExact` | skynet/3rd/lpeg/lpcode.c:1005-1006 | every final configuration that the generated program can reach is the one the semantics gives |
| `PegPeephole.GenTidy` | skynet/3rd/lpeg/lpcode.c:919-944 | generated code has no cycle of jumps and no label outside, which finaltarget needs in order to end |
| `PegPeephole.SimulateStep` | skynet/3rd/lpeg/lpcode.c:956-995 | one round of a program is some rounds of any rewriting of it, up to jumps still to be followed |
| `PegPeephole.SameOutcome` | skynet/3rd/lpeg/lpcode.c:956-995 | every outcome of a program is the outcome of every rewriting of it |
| `PegPeephole.OptimizedExact` | skynet/3rd/lpeg/lpcode.c:1001-1010 | the optimized program ends on every subject as the pattern says, and in no other way |
| `PegPeephole.EndsWithEnd` | skynet/3rd/lpeg/lpcode.c:994-994 | the assertion at the end of peephole always holds |
| `PegEmit.CompileState.Add` | skynet/3rd/lpeg/lpcode.c:494-500 | appends one instruction |
| `PegEmit.CompileState.JumpToThere` | skynet/3rd/lpeg/lpcode.c:543-546 | patches one offset and leaves the rest of the code alone |
| `PegEmit.CompileState.JumpToHere` | skynet/3rd/lpeg/lpcode.c:552-554 | patches an offset to the next instruction |
| `PegEmit.CompileState.CodeTestSet` | skynet/3rd/lpeg/lpcode.c:614-636 | appends the test for a first set, or nothing when every character passes |
| `PegEmit.CompileState.CodeCharset` | skynet/3rd/lpeg/lpcode.c:588-604 | appends the cheapest instruction for a charset, or skips the check that a dominating test has made |
| `PegEmit.CompileState.CodeBehind` | skynet/3rd/lpeg/lpcode.c:659-663 | appends the look-behind code |
| `PegEmit.CompileState.CodeChoice` | skynet/3rd/lpeg/lpcode.c:677-712 | appending and patching yields the specified code of a choice |
| `PegEmit.CompileState.CodeRep` | skynet/3rd/lpeg/lpcode.c:777-813 | appending and patching yields the specified code of a repetition |
| `PegEmit.CompileState.CodeNot` | skynet/3rd/lpeg/lpcode.c:823-837 | appending and patching yields the specified code of a negative predicate |
| `PegEmit.CompileState.CodeAnd` | skynet/3rd/lpeg/lpcode.c:720-736 | appending and patching yields the specified code of a positive predicate |
| `PegEmit.CompileState.CodeSeq` | skynet/3rd/lpeg/lpcode.c:899-911 | appends both parts, the second with the test only if the first needs it |
| `PegEmit.CompileState.CodeGen` | skynet/3rd/lpeg/lpcode.c:919-944 | emission in place equals the specified code for every tree, follow set and test |
| `PegEmit.CompileState.FinalTarget` | skynet/3rd/lpeg/lpcode.c:641-653 | following jumps in place ends, at the final target that the generated code had |
| `PegEmit.CompileState.OptimizeLabel` | skynet/3rd/lpeg/lpcode.c:962-967 | a label goes to its final target; nothing else changes |
| `PegEmit.CompileState.OptimizeJump` | skynet/3rd/lpeg/lpcode.c:968-990 | a jump goes to its final target, or becomes the instruction there with its label corrected |
| `PegEmit.CompileState.Peephole` | skynet/3rd/lpeg/lpcode.c:956-995 | the pass yields a rewriting of the program in which no label leads to a jump and no jump to an instruction that jumps |
| `PegEmit.CompileState.Compile` | skynet/3rd/lpeg/lpcode.c:1001-1010 | generation and optimizer together yield such a rewriting of the specified code |
| `Scheduler.StepKeeps` | skynet/skynet-src/skynet_server.c:116-351 | every step of every thread keeps the invariant on ownership, reference counts, flags and message history |
| `Scheduler.RunKeeps` | skynet/skynet-src/skynet_mq.c:43-250 | the invariant holds in every state of every run |
| `Scheduler.OneOwner` | skynet/skynet-src/skynet_mq.c:43-75 | a queue is with one thread at most and then not in the global list, so one service is never dispatched by two workers |
| `Scheduler.ListedOnce` | skynet/skynet-src/skynet_mq.c:43-75 | the global list never holds a queue twice |
| `Scheduler.NeverStranded` | skynet/skynet-src/skynet_mq.c:137-209 | a queue with messages is in the global list or with a thread |
| `Scheduler.FirstInFirstOut` | skynet/skynet-src/skynet_server.c:296-351 | what was pushed is what was dispatched, then dropped, then still queued, in push order; dropping happens only after release |
| `Scheduler.NothingFreedInUse` | skynet/skynet-src/skynet_server.c:208-239 | queues and contexts that a thread has a reference to are not freed, and the count equals the holders plus the registration |
| `SchedulerLaunch.LaunchExact` | skynet/skynet-src/skynet_server.c:163-172 | a context that skynet_context_new or cmd_launch still has to use after the release has been deleted if and only if it was retired, nobody refers to it and nobody is about to delete it |
| `SchedulerLaunch.LaunchSafe` | skynet/skynet-src/skynet_server.c:163-172 | without a retirement since registration no launching thread uses a deleted context |
| `SchedulerLaunch.RetirementBreaks` | skynet/skynet-src/skynet_server.c:163-172 | from every state of every run in which a launching thread still has to use a context nobody refers to, another thread can retire and delete it first |
| `SchedulerLaunch.UnsafeLaunch` | skynet/skynet-src/skynet_server.c:164-166 | a run of two threads that frees the context before ctx->init is written |
| `SchedulerLaunch.DispatchAssertion` | skynet/skynet-src/skynet_server.c:260-262 | in every run a context that is given a message has been initialised |
| `Scheduler.PushAssertion` | skynet/skynet-src/skynet_mq.c:43-56 | a queue about to be pushed is not in the list already, which is what the source asserts through the next pointer |
| `Scheduler.Quiescent` | skynet/skynet-src/skynet_mq.c:219-250 | when all threads rest, every message was dispatched or dropped and released queues are freed |
| `Scheduler.PushKeeps` | skynet/skynet-src/skynet_mq.c:190-209 | pushing a message lists an idle queue and keeps the invariant |
| `Scheduler.DispatchKeeps` | skynet/skynet-src/skynet_server.c:296-351 | running the callback and going on or giving the queue back keeps the invariant |
| `Scheduler.DropKeeps` | skynet/skynet-src/skynet_mq.c:231-250 | dropping the messages of a released queue keeps the invariant |
| `Scheduler.DeleteKeeps` | skynet/skynet-src/skynet_mq.c:220-229 | marking for release lists the queue once more and keeps the invariant |
| `Scheduler.RetireKeeps` | skynet/skynet-src/skynet_handle.c:70-106 | retiring a handle gives up the registration and keeps the invariant |
| `SchedulerTurns.DispatchTurn` | skynet/skynet-src/skynet_server.c:296-351 | a worker alone that finds a registered service with messages at the head of the list dispatches its first message; the whole new state is given |
| `SchedulerTurns.IdleTurn` | skynet/skynet-src/skynet_server.c:314-319 | a registered service without messages leaves the list, its queue idle, its count as before |
| `SchedulerTurns.NextTurn` | skynet/skynet-src/skynet_server.c:337-351 | a worker done with a service holds the next one of the list and has put the served one at its end; with an empty list it keeps the one it has |
| `SchedulerTurns.BackTurn` | skynet/skynet-src/skynet_mq.c:240-250 | a queue whose context is not deleted yet goes back to the end of the list |
| `SchedulerTurns.DropTurn` | skynet/skynet-src/skynet_mq.c:231-250 | the queue of a deleted context loses all its messages in order and is freed |
| `SchedulerTurns.LaunchTurn` | skynet/skynet-src/skynet_server.c:126-172 | a launch whose init succeeds, step by step: registered, initialised, one reference, listed last |
| `SchedulerTurns.FailedLaunchTurn` | skynet/skynet-src/skynet_server.c:173-182 | a launch whose init fails: retired, released, its queue freed, the list as before |
| `SchedulerTurns.SendTurn` | skynet/skynet-src/skynet_server.c:229-239 | a send: the message is last in the queue, an idle queue last in the list, the count as before |
| `SchedulerTurns.RetireTurn` | skynet/skynet-src/skynet_handle.c:70-106 | a retirement deletes the context exactly when it held the last reference, and then an idle queue is listed for release |
| `SchedulerProgress.HeadDispatched` | skynet/skynet-src/skynet_server.c:296-351 | from every state of every run in which a registered service with messages heads the list, steps of a resting worker alone dispatch exactly its first message |
| `SchedulerProgress.HeadDropped` | skynet/skynet-src/skynet_mq.c:231-250 | from every state of every run in which the queue of a deleted context heads the list, steps of a resting worker alone drop its messages and free it |
| `SchedulerProgress.NeverBlocked` | skynet/skynet-src/skynet_server.c:116-351 | in every state of a run every thread has an enabled next step |
| `SchedulerProgress.Settle` | skynet/skynet-src/skynet_server.c:116-351 | in every state of a run a thread left alone comes to rest, whatever init functions and dispatch loops decide, and undoes nothing |
| `SchedulerProgress.WorkerEmpties` | skynet/skynet-src/skynet_server.c:296-351 | when all threads rest, a worker alone empties the list: every message of every registered service is dispatched, those of deleted contexts are dropped and their queues freed, in order, and nothing else changes |
| `SchedulerProgress.Completes` | skynet/skynet-src/skynet_server.c:116-351 | every run can be completed whatever is decided: all threads idle, the list empty, all that registered services accepted dispatched, all else freed |
| `SchedulerHistory.QueueOrder` | skynet/skynet-src/skynet_mq.c:43-75 | in every run the queues pushed to the global list are, in order, those taken from it followed by those in it |
| `SchedulerHistory.PopTakes` | skynet/skynet-src/skynet_mq.c:58-75 | popping a list that is not empty gives its head to the thread and leaves the tail |
| `SchedulerHistory.Histories` | skynet/skynet-src/skynet_server.c:229-239 | in every run what was pushed to a service is what senders had for it in the order of their pushes, and what it dispatched is what its callback was given |
| `SchedulerHistory.SentAsGrabbed` | skynet/skynet-src/skynet_server.c:229-239 | in every run what a thread is sending is the message of its last skynet_handle_grab, to the service it looked up |
| `MessageQueue.RingPop` | skynet/skynet-src/skynet_mq.c:138-172 | taking the head of a wrapped ring takes the first message |
| `MessageQueue.RingWrite` | skynet/skynet-src/skynet_mq.c:190-209 | writing at the tail of a wrapped ring appends a message |
| `MessageQueue.Mq.constructor` | skynet/skynet-src/skynet_mq.c:78-96 | an empty ring with the default threshold |
| `MessageQueue.Mq.Length` | skynet/skynet-src/skynet_mq.c:112-125 | the number of messages, also when the ring is wrapped |
| `MessageQueue.Mq.Overload` | skynet/skynet-src/skynet_mq.c:128-135 | reports the overload once |
| `MessageQueue.Mq.Pop` | skynet/skynet-src/skynet_mq.c:138-172 | takes the first message, and doubles the threshold past every length it has seen |
| `MessageQueue.Mq.Expand` | skynet/skynet-src/skynet_mq.c:175-187 | doubling a full ring keeps messages and order |
| `MessageQueue.Mq.Push` | skynet/skynet-src/skynet_mq.c:190-209 | appends a message, growing the ring when it fills |
| `MessageQueue.GlobalQueue.Push` | skynet/skynet-src/skynet_mq.c:44-56 | appends a queue to the linked list |
| `MessageQueue.GlobalQueue.Pop` | skynet/skynet-src/skynet_mq.c:59-75 | takes the first queue, and clears the tail with the last |
| `Montgomery.FoldExact` | src/webclient/BigInt.js:1479-1501 | the multiple of n chosen from the lowest digit makes the division by the radix exact |
| `Montgomery.KeptBound` | src/webclient/BigInt.js:1479-1501 | every partial sum stays below n + y, even when digits are dropped |
| `Montgomery.Account` | src/webclient/BigInt.js:1479-1501 | after each pass the kept sum, the dropped units and a multiple of n make up the product |
| `Montgomery.ProductExact` | src/webclient/BigInt.js:1464-1506 | the result is always reduced, and is the Montgomery product if and only if every partial sum fits in the digits the scratch array keeps |
| `Montgomery.RoomyFits` | src/webclient/BigInt.js:1464-1506 | a scratch array with room for n + y never drops anything |
| `Montgomery.OneSpareDigitFails` | src/webclient/BigInt.js:1464-1506 | with one leading zero digit and n = 32767, squaring 32766 gives 0 where 1 is right |
| `BigInt.Greater` | src/webclient/BigInt.js:857-874 | compares values of arrays of any two lengths |
| `BigInt.Subtract` | src/webclient/BigInt.js:1297-1310 | two's complement difference in the width of x |
| `BigInt.LinCombShift` | src/webclient/BigInt.js:1242-1256 | x + b*y shifted by whole digits, modulo the width of x, with every carry a 32-bit integer; addShift_ and subShift_ are b = 1 and -1 |
| `BigInt.Copy` | src/webclient/BigInt.js:1108-1115 | copies the digits that fit and clears the rest |
| `BigInt.CopyInt` | src/webclient/BigInt.js:1118-1124 | the digits of a machine integer |
| `BigIntMont.Row` | src/webclient/BigInt.js:1483-1500 | one pass leaves the quotient by the radix in the kept digits; all intermediate sums stay below 2^31 |
| `BigIntMont.Pass` | src/webclient/BigInt.js:1479-1501 | one turn of the outer loop is one step of the truncated algorithm |
| `BigIntMont.Mont` | src/webclient/BigInt.js:1464-1506 | mont_ in place, also with x and y the same array: reduced result, correct exactly when the partial sums fit |
| `BigIntInverse.InverseModInt` | src/webclient/BigInt.js:740-753 | the inverse, of either sign and at most the modulus, or 0 exactly when there is none |
| `BigIntInverse.OddCoprime` | src/webclient/BigInt.js:1421-1424 | every odd number has an inverse modulo the radix |
| `BigIntShift.LeftShift` | src/webclient/BigInt.js:1173-1189 | multiplies by a power of two within a digit, modulo the width of the array |
| `BigIntShift.RightShift` | src/webclient/BigInt.js:1147-1161 | divides by a power of two, rounding down |
| `BigIntCompare.GreaterShift` | src/webclient/BigInt.js:841-854 | right for all arguments except those of Misjudged: the top column of y holds the highest digit of an x that is not larger, the top column of a shorter x holds the highest digit of a smaller y, or the shift passes the end of y |
| `BigIntCompare.SmallerFoundGreater` | src/webclient/BigInt.js:844-846 | greaterShift([1,0],[5],0) finds 1 above 5 |
| `BigIntQuotient.TrueDigit` | src/webclient/BigInt.js:905-928 | the true quotient digit passes the three-by-two digit test |
| `BigIntQuotient.PassedDigit` | src/webclient/BigInt.js:905-928 | a digit that passes the test is the true one or one more |
| `BigIntQuotient.GuessGood` | src/webclient/BigInt.js:905-928 | the lowered estimate is the true digit or one more, unless it is held at the largest digit below a larger quotient |
| `BigIntQuotient.StepExact` | src/webclient/BigInt.js:905-934 | one turn of the main loop leaves the remainder by the raised divisor and keeps the true digit, unless held |
| `BigIntQuotient.RemainsExact` | src/webclient/BigInt.js:905-935 | from below the raised divisor the main loop leaves the remainder |
| `BigIntQuotient.DivRemainderExact` | src/webclient/BigInt.js:897-935 | so it does from any dividend that fits the array, unless that is too large for the divisor and starts with the same digit |
| `BigIntQuotient.StepSafe` | src/webclient/BigInt.js:905-934 | no turn of the main loop wraps, whatever it starts from: it takes away the digit it keeps times the raised divisor |
| `BigIntQuotient.RemainsSafe` | src/webclient/BigInt.js:905-935 | the digits kept and what remains make up the dividend, for every dividend |
| `BigIntDivide.Estimate` | src/webclient/BigInt.js:905-928 | first guess and decrements give the largest digit up to the first guess that passes the test, all in 32 bits |
| `BigIntDivide.TakeAway` | src/webclient/BigInt.js:930-934 | the multiple taken away in the width of the array, the divisor added back once when the sign bit is set |
| `BigIntDivide.LeadingDigit` | src/webclient/BigInt.js:897-903 | ends without taking the divisor from a smaller remainder if and only if the divisor has a leading zero, or the dividend fills its array, or its remainder by the raised divisor has no digit in its top column |
| `BigIntDivide.LongDivide` | src/webclient/BigInt.js:897-935 | quotient and remainder of the shifted numbers below the raised divisor, and what is left in every other case |
| `BigIntDivide.Overshoot` | src/webclient/BigInt.js:900-935 | after one subtraction too many, and however many more, the quotient and remainder that divide_ goes on to compute do not make up the dividend |
| `BigIntDivide.Divide` | src/webclient/BigInt.js:882-939 | for every non-zero divisor: ends if and only if the leading digit does; then floor quotient and remainder of a dividend with a leading zero, and the divisor restored digit for digit |
| `BigIntModular.LeavesSame` | src/webclient/BigInt.js:893-935 | whatever the number, what divide_ leaves is congruent modulo the divisor to the bits that leftShift_ keeps |
| `BigIntModular.LeavesExact` | src/webclient/BigInt.js:893-935 | unless clogged it is their remainder |
| `BigIntModular.LeavesPlain` | src/webclient/BigInt.js:882-939 | a dividend with a leading zero digit leaves its remainder |
| `BigIntModular.SpareDigitDivides` | src/webclient/BigInt.js:900-903 | a divisor with a leading zero digit always gets past the leading quotient digit |
| `BigIntModular.StuckExample` | src/webclient/BigInt.js:876-903 | x = [0,10000,0] and y = [5,20000] meet every documented precondition and do not |
| `BigIntModular.Mod` | src/webclient/BigInt.js:1342-1350 | for every non-zero n, what divide_ leaves; the remainder when x has a leading zero |
| `BigIntModular.MultMod` | src/webclient/BigInt.js:1354-1364 | for every non-zero n that divide_ gets past, what it leaves of the truncated product, cut to the digits of x; the product modulo n when that fits |
| `BigIntSquare.LastColumn` | src/webclient/BigInt.js:1373-1383 | the last column of a row stays below 2^31 although the bounds of its parts only give 2^31 itself |
| `BigIntSquare.Square` | src/webclient/BigInt.js:1367-1384 | the double loop computes the square with each cross product taken once |
| `BigIntSquare.SquareMod` | src/webclient/BigInt.js:1367-1387 | for x of any length and every non-zero n that divide_ gets past, what it leaves of the square, cut to the digits of x; the square modulo n when that fits |
| `BigIntPower.ModInt` | src/webclient/BigInt.js:959-964 | the remainder by a machine integer |
| `BigIntPower.DivInt` | src/webclient/BigInt.js:1212-1220 | quotient in place and remainder by a machine integer |
| `BigIntPower.EqualsInt` | src/webclient/BigInt.js:1034-1042 | compares with a digit, whatever the length |
| `BigIntPowMod.NegatedInverse` | src/webclient/BigInt.js:1419-1424 | np satisfies n*np = -1 modulo the radix and keeps the product in 32 bits |
| `BigIntPowMod.FormTimes` | src/webclient/BigInt.js:1437-1451 | a Montgomery product of two forms is the form of the product of the powers |
| `BigIntPowMod.Exponentiate` | src/webclient/BigInt.js:1437-1451 | the bits of y from the first one down give g^y mod n |
| `BigIntPowMod.PowModOdd` | src/webclient/BigInt.js:1419-1451 | x^y mod n for odd n with room in the scratch array; 1 for y = 0 |
| `BigIntPowEven.PowModEven` | src/webclient/BigInt.js:1405-1417 | for every even n with a leading zero, the square-and-multiply of the cut base with the squares that squareMod_ leaves |
| `BigIntPowEven.EvenExact` | src/webclient/BigInt.js:1405-1417 | that gives x^y mod n for every y if and only if the cut base is congruent to x and every squaring is right modulo n |
| `BigIntPowEven.SquaredExact` | src/webclient/BigInt.js:1367-1387 | for every h, squareMod_ is right modulo n if and only if n divides the bits that leftShift_ cuts together with the digits that copy_ cuts from what divide_ leaves |
| `BigIntPowEven.EvenRight` | src/webclient/BigInt.js:1405-1417 | for every x and even n: every exponent comes out right if and only if n divides the digits that copy_ cuts from x and what each squaring loses |
| `BigIntPowEven.SettledRight` | src/webclient/BigInt.js:1405-1417 | the same with the squarings up to the first scratch number that has a leading zero digit |
| `BigIntPowEven.UncloggedRight` | src/webclient/BigInt.js:1405-1417 | unless clogged: if and only if n divides the digits cut from x and the bits cut from the square of the rest |
| `BigIntPowEven.ShortBaseRight` | src/webclient/BigInt.js:1405-1417 | when the cut base has a leading zero digit: if and only if n divides the digits cut off |
| `BigIntPowEven.SquareCutFails` | src/webclient/BigInt.js:1367-1387 | powMod([0,0,16384],2,10) gives 0 where 6 is right, although nothing is cut from the base |
| `BigIntPowEven.HeldEstimateFails` | src/webclient/BigInt.js:905-935 | powMod(614653685439,2,10) gives 5 where 1 is right, although neither cut takes anything |
| `BigIntPowEven.CutBaseFails` | src/webclient/BigInt.js:1405-1417 | radix^3 modulo 6: the base is cut to 0 and the loop gives 0 where 2 is right |
| `BigIntPowMod.PowModInPlace` | src/webclient/BigInt.js:1400-1451 | powMod_, both cases |
| `BigIntPowMod.TwoZerosAreRoomy` | src/webclient/BigInt.js:413-417 | two leading zeros, which powMod asks trim for, always give room |
| `BigIntPowMod.Trim` | src/webclient/BigInt.js:1390-1396 | same value with exactly k leading zeros |
| `BigIntPowMod.Expand` | src/webclient/BigInt.js:317-321 | same value with at least n digits and a leading zero |
| `BigIntPowMod.PowMod` | src/webclient/BigInt.js:413-417 | powMod: x^y mod n for every odd n > 1; for every even n the loop for even moduli on the trimmed n, of which EvenRight says when it is the power |
| `Quorem.OneBelow` | lualib-src/lua-cjson/dtoa.c:2149-2149 | the top-word estimate is at most the true quotient and at most one below it |
| `Quorem.SubtractMultiple` | lualib-src/lua-cjson/dtoa.c:2160-2190 | b minus q times S, word by word with carry and borrow, exact within 64 bits |
| `Quorem.Compare` | lualib-src/lua-cjson/dtoa.c:1034-1066 | compares numbers without leading zero words |
| `Quorem.Quorem` | lualib-src/lua-cjson/dtoa.c:2119-2241 | for a divisor with four leading zero bits, returns the quotient and leaves the remainder, with one correction at most; a digit below ten when b is below ten times S |
| `Bigints.MultAdd` | lualib-src/lua-cjson/dtoa.c:613-667 | b*m + a, every sum within 64 bits |
| `Bigints.Row` | lualib-src/lua-cjson/dtoa.c:846-859 | one row of the product from word j on, every sum within 64 bits |
| `Bigints.Mult` | lualib-src/lua-cjson/dtoa.c:806-913 | the product of any two numbers, without leading zero words |
| `Bigints.Pow5.Pow5Mult` | lualib-src/lua-cjson/dtoa.c:918-973 | b*5^k for every k and every state of the cached chain of squares, which only grows |
| `Bigints.LShift` | lualib-src/lua-cjson/dtoa.c:975-1030 | b*2^k, whole words and then bits |
| `Bigints.Compare` | lualib-src/lua-cjson/dtoa.c:1035-1066 | compares numbers of any lengths |
| `Bigints.Diff` | lualib-src/lua-cjson/dtoa.c:1069-1153 | the absolute difference with its sign, without leading zero words |
| `SharedLayout.LookupKey` | skynet/lualib-src/lua-sharedata.c:502-530 | finds the node of a key if and only if some node has the key; the walk ends because links only go down |
| `SharedLayout.StepDown` | skynet/lualib-src/lua-sharedata.c:502-530 | following next rules out exactly the node left |
| `SharedData.CountSize` | skynet/lualib-src/lua-sharedata.c:68-89 | counts the keys outside the array part |
| `SharedData.RoomLeft` | skynet/lualib-src/lua-sharedata.c:252-259 | while some key has no slot, some slot is empty: the assertion never fails |
| `SharedData.AllPlaced` | skynet/lualib-src/lua-sharedata.c:238-272 | once every key has a slot, every slot is filled |
| `SharedFill.FirstTake` | skynet/lualib-src/lua-sharedata.c:213-235 | taking a free main position keeps the first-pass layout |
| `SharedFill.NotYetPlaced` | skynet/lualib-src/lua-sharedata.c:246-250 | a key that is not at its main position is nowhere yet |
| `SharedFill.InsertLinks` | skynet/lualib-src/lua-sharedata.c:260-268 | linking a collider behind its main node keeps every chain descending and complete |
| `SharedFill.SecondInsert` | skynet/lualib-src/lua-sharedata.c:238-272 | one step of the second pass keeps the layout and places the key |
| `SharedConf.SetValue` | skynet/lualib-src/lua-sharedata.c:125-179 | a stored value stands for the given one, inner tables all the way down |
| `SharedConf.FillNoColliding` | skynet/lualib-src/lua-sharedata.c:213-235 | the first pass fills array part and main positions |
| `SharedConf.FillColliding` | skynet/lualib-src/lua-sharedata.c:238-272 | the second pass places every remaining key |
| `SharedConf.ConvTable` | skynet/lualib-src/lua-sharedata.c:277-325 | the converted table agrees with its source |
| `SharedConf.IndexConf` | skynet/lualib-src/lua-sharedata.c:533-566 | the key is cast to int; a key of the source gives its value, every other key gives nil |
| `SharedConf.CastExact` | skynet/lualib-src/lua-sharedata.c:545-546 | the cast keeps a key if and only if it is in the range of int |
| `SharedConf.CastFails` | skynet/lualib-src/lua-sharedata.c:545-546 | 2^32 + 1 is answered as 1 |
| `SharedConf.NextKey` | skynet/lualib-src/lua-sharedata.c:590-646 | the key after a given one in array order, then slot order |
| `SharedConf.Traverse` | skynet/lualib-src/lua-sharedata.c:590-646 | iterating from nil yields the enumeration and ends |
| `SharedConf.VisitsEveryKeyOnce` | skynet/lualib-src/lua-sharedata.c:590-646 | the enumeration holds every key of the source exactly once and no other |
| `Stm.MutualExclusion` | skynet/skynet-src/rwlock.h:17-48 | in every run a writer never shares the lock with a reader or another writer |
| `Stm.NeverFreedInUse` | skynet/lualib-src/lua-stm.c:47-115 | in every run a copy in use has a positive count and is neither freed nor about to be |
| `Stm.FreedAtMostOnce` | skynet/lualib-src/lua-stm.c:47-55 | in every run no copy is freed twice |
| `Stm.NothingLeaks` | skynet/lualib-src/lua-stm.c:205-235 | with all threads at rest the count is the number of holders, and exactly the copies nobody holds have been freed |
| `Stm.NeverStuck` | skynet/lualib-src/lua-stm.c:93-121 | in every run every pointer that a thread is about to follow names a copy that was allocated |
| `Stm.StepKeeps` | skynet/lualib-src/lua-stm.c:47-121 | every load, store and atomic operation keeps the invariant |
| `Stm.OnlyOwner` | skynet/skynet-src/rwlock.h:31-37 | while a writer owns the lock nobody else is inside or waiting for readers |
| `Stm.ObjectCovers` | skynet/lualib-src/lua-stm.c:94-104 | under the lock the object's own reference is counted, so the increment starts above 0 |
| `StmHistory.CopyIsLastStored` | skynet/lualib-src/lua-stm.c:57-115 | in every run obj->copy is what was stored last: 0 at first, then the copies of updates and the null of deletions in the order of their stores |
| `StmHistory.StoreOrigin` | skynet/lualib-src/lua-stm.c:107-115 | in every run what is stored is the copy allocated by an update under way, or null by a deletion under way |
| `StmHistory.TakesEffect` | skynet/lualib-src/lua-stm.c:107-115 | in every run a finished update has made the copy it allocated obj->copy in one of its own moves, and a finished deletion null |
| `StmHistory.ReadGets` | skynet/lualib-src/lua-stm.c:205-235 | in every run a finished read has what obj->copy was at one of its own moves; it compared that with what it had before, which decides whether it reports an update |
| `StmHistory.ByeRun` | skynet/lualib-src/lua-stm.c:193-203 | in every run a reader that was deleted is left without a copy |
| `StmHistory.ReadAfterUpdate` | skynet/lualib-src/lua-stm.c:93-115 | in every run a read that begins after an update has ended gets what that update stored or what was stored later |
| `StmHistory.ReadAfterRead` | skynet/lualib-src/lua-stm.c:93-105 | in every run a read that begins after another has ended never gets what was stored earlier |
| `StmProgress.SomebodyAdvances` | skynet/skynet-src/rwlock.h:17-48 | in every state of a run with a busy thread some thread can go on: no deadlock between waiting writers and retreating readers |
| `StmProgress.Completes` | skynet/skynet-src/rwlock.h:17-48 | from every state of every run all threads can finish what they have begun |
| `SocketQueue.DrainKeeps` | skynet/skynet-src/socket_server.c:480-509 | writing a list keeps packages, order and byte count, and leaves at most the head partly sent |
| `SocketQueue.DrainWrites` | skynet/skynet-src/socket_server.c:480-509 | what reaches the wire is whole packages, then a part of the head |
| `SocketQueue.DrainExact` | skynet/skynet-src/socket_server.c:480-509 | which answers of the kernel are used and what each does: a count of the whole rest or more sends a package, a smaller one sends that much and ends, as do an error and a refusal; an interruption does not |
| `SocketServer.Raised` | skynet/skynet-src/socket_server.c:589-602 | moving the partly sent low head to the empty high list keeps all accounts |
| `SocketServer.AcceptHigh` | skynet/skynet-src/socket_server.c:687-690 | a high package goes behind the high list, before all low ones, and keeps submission order in each priority |
| `SocketServer.AcceptLow` | skynet/skynet-src/socket_server.c:693-696 | a low package goes last |
| `SocketServer.AcceptDirect` | skynet/skynet-src/socket_server.c:723-744 | a package written in part at once keeps its rest at the head of the high list, whatever its priority |
| `SocketRun.Socket.SendList` | skynet/skynet-src/socket_server.c:480-509 | send_list_tcp consumes the kernel's answers as specified |
| `SocketRun.Socket.SendBuffer` | skynet/skynet-src/socket_server.c:619-656 | exact outcome from queues, kind and answers: closed if and only if a write of the high or then the low list fails, or both drain on a half-closed socket; bytes written, answers used, queues left, warning and abort likewise |
| `SocketRun.Socket.SendSocket` | skynet/skynet-src/socket_server.c:707-783 | takes the package unless the socket cannot send or the direct write fails; exact queues, bytes written and warning |
| `SocketRun.Socket.CloseSocket` | skynet/skynet-src/socket_server.c:807-832 | closes if and only if already closed, shut down, failed or flushed, with the reason; otherwise half-closed with something left |
| `SocketRun.Socket.ForceClose` | skynet/skynet-src/socket_server.c:335-355 | drops what is queued and nothing else |
| `SocketRun.Socket.ReadEnds` | skynet/skynet-src/socket_server.c:1023-1050 | end of file and read errors close |
| `SocketRun.Drive` | skynet/skynet-src/socket_server.c:588-832 | over any sequence of requests and events and any partial writes: whole packages in submission order within each priority, plus at most one beginning; flushed means delivered; after a flushing event no socket is half closed with nothing left to write |
| `SocketRun.WholePackages` | skynet/skynet-src/socket_server.c:588-656 | the same, from the accounts |
| `SocketRun.FlushedDelivers` | skynet/skynet-src/socket_server.c:640-643 | a socket closed without error, end of file or shutdown has delivered everything it took |
| `SocketRun.LowHeadWhole` | skynet/skynet-src/socket_server.c:619-620 | the first assertion of send_buffer always holds |
| `SocketRun.BoundaryCut` | skynet/skynet-src/socket_server.c:637-638 | the last assertion fails exactly when what is left of the low list is a non-empty suffix cut at a package boundary |
| `SocketRun.BoundaryExample` | skynet/skynet-src/socket_server.c:637-638 | two one-byte low packages of which the kernel takes one |
| `Sha1.SameF` | skynet/lualib-src/lsha1.c:115-120 | the choice and majority forms of the source are those of FIPS 180-4 |
| `Sha1.Step` | skynet/lualib-src/lsha1.c:115-140 | a macro with rotated arguments is one round of section 6.1.2 |
| `Sha1.NextWord` | skynet/lualib-src/lsha1.c:112-113 | the circular schedule of sixteen words yields the 80-word schedule |
| `Sha1.Transform` | skynet/lualib-src/lsha1.c:124-172 | the in-place transform is the compression function |
| `Sha1Laws.KLaw` | skynet/lualib-src/lsha1.c:116-120 | the constants of section 4.2.1 are the integer parts of 2^30 times the square roots of 2, 3, 5 and 10 |
| `Sha1Laws.FLaw` | skynet/lualib-src/lsha1.c:116-120 | bit by bit: choice in rounds 0 to 19, majority in 40 to 59, parity in the others |
| `Sha1Laws.XorLaw` | skynet/lualib-src/lsha1.c:112-113 | a bit of the exclusive or is set if and only if the bits differ |
| `Sha1Laws.RolLaw` | skynet/lualib-src/lsha1.c:101-101 | bit i of a rotation by n is bit i - n modulo 32 |
| `Sha1Laws.InitialLaw` | skynet/lualib-src/lsha1.c:176-187 | the octets of the initial value count up from 01 by 22, down from fe by 22, and down from f0 by 0f |
| `Sha1Laws.WordAtLaw` | skynet/lualib-src/lsha1.c:103-111 | the words of a block are big-endian values of four octets |
| `Sha1Laws.AddLaw` | skynet/lualib-src/lsha1.c:116-120 | sums are words, wrapped once at most |
| `Sha1Laws.LengthLaw` | skynet/lualib-src/lsha1.c:219-232 | the length at the end of the padding is the number of bits as a big-endian value of eight octets |
| `Sha1Laws.DigestLaw` | skynet/lualib-src/lsha1.c:233-240 | the digest is the five registers in order as big-endian octets |
| `Sha1Stream.CountAdd` | skynet/lualib-src/lsha1.c:198-200 | what the two count words hold after a piece of any length: its bits, and 2^32 more when the carry test is wrong |
| `Sha1Stream.WholeCounts` | skynet/lualib-src/lsha1.c:198-200 | a message hashed in one call is counted right if and only if its length modulo 2^61 is below 2^29 bytes |
| `Sha1Stream.Context.Update` | skynet/lualib-src/lsha1.c:190-215 | buffering keeps the hash of all whole blocks and the rest, for every split and length |
| `Sha1Stream.Context.Final` | skynet/lualib-src/lsha1.c:219-244 | padding byte by byte gives the digest of the message with the bits that were counted |
| `Sha1Stream.StreamedExact` | skynet/lualib-src/lsha1.c:198-232 | what is hashed is the padded message of section 5.1.1 of FIPS 180-4 if and only if the miscounted pieces number a multiple of 2^32 |
| `Sha1Stream.HashPieces` | skynet/lualib-src/lsha1.c:190-260 | hashing in any pieces is hashing the message with the bits counted; the standard digest for pieces below 2^29 bytes |
| `Sha1Stream.HmacRight` | skynet/lualib-src/lsha1.c:265-312 | the HMAC of section 2 of RFC 2104 for a key below 2^29 bytes and a text that is not miscounted |
| `Sha1Stream.HmacSha1` | skynet/lualib-src/lsha1.c:265-312 | lhmac_sha1 for keys and texts of any length, each as it reaches the hash |
| `WebSocketFrames.ReadSizeStable` | lualib-src/lua-websocketnetpack.c:239-302 | more bytes never change what a complete header says, its length read as a signed int |
| `WebSocketHeader.HeaderFields` | lualib-src/lua-websocketnetpack.c:238-302 | read_size field by field: refused exactly when FIN is clear, a reserved bit set or the opcode 0; short exactly when octets of the header are missing; otherwise judged by the length modulo 2^32 |
| `WebSocketFrames.UnmaskAppend` | lualib-src/lua-websocketnetpack.c:305-327 | unmasking in pieces with a running offset is unmasking the whole |
| `WebSocketFrames.SplitAppend` | lualib-src/lua-websocketnetpack.c:361-427 | for push_more, cutting a stream in two does not change what comes out |
| `WebSocketFrames.XorBit` | lualib-src/lua-websocketnetpack.c:305-327 | bit k of the exclusive or is set if and only if bit k of the operands differs |
| `WebSocketFrames.DeliveredBits` | lualib-src/lua-websocketnetpack.c:305-327 | every bit of a payload is the difference of the bits of its octet in the frame and of mask octet i modulo 4 |
| `WebSocketFrames.MaskedHello` | lualib-src/lua-websocketnetpack.c:305-327 | the masked example of section 5.7 of RFC 6455 gives "Hello" |
| `WebSocketFrames.SplitEncoded` | lualib-src/lua-websocketnetpack.c:748-788 | a stream of final frames, plain or masked bit by bit as in section 5.3 of RFC 6455, comes apart into the payloads that went in |
| `WebSocketChunks.FeedAllRight` | lualib-src/lua-websocketnetpack.c:440-617 | on an exact stream any chunks give, after each of them, the payloads and the rest of the bytes so far |
| `WebSocketChunks.BytewiseWrong` | lualib-src/lua-websocketnetpack.c:456-493 | on any other stream one byte at a time goes wrong, or fails, at some moment |
| `WebSocketChunks.CuttingExact` | lualib-src/lua-websocketnetpack.c:440-617 | no cutting of a stream fails and each gives at every moment what the bytes so far hold, if and only if the stream is exact; and if and only if this holds for one byte at a time |
| `WebSocketChunks.LossShows` | lualib-src/lua-websocketnetpack.c:468-477 | bytes forgotten behind a resumed header make no difference if and only if its frame is empty and they would be dropped |
| `WebSocketLengths.OverLimitLosesBytes` | lualib-src/lua-websocketnetpack.c:468-477 | an over-long header that holds a small frame: in one chunk it yields the payload, in two it forgets six bytes and yields nothing |
| `WebSocketLengths.ForgottenHarmlessly` | lualib-src/lua-websocketnetpack.c:468-477 | an over-long header that forgets six bytes on a stream that is exact |
| `WebSocketLengths.OverLimitKept` | lualib-src/lua-websocketnetpack.c:468-477 | an over-long header that forgets nothing |
| `WebSocketLengths.PlainNeverFails` | lualib-src/lua-websocketnetpack.c:274-302 | if no ten bytes of a stream read as a header whose 64-bit length has bit 31 set, no cutting of it fails |
| `WebSocketLengths.NegativeLengthFails` | lualib-src/lua-websocketnetpack.c:440-617 | [130,127,0,0,0,0,128,0,0,0]: the length is read as INT_MIN, not skipped, and fails |
| `WebSocketLengths.MinusOneStuck` | lualib-src/lua-websocketnetpack.c:440-617 | a length read as -1 is kept as a short header for good, until it no longer fits the record |
| `WebSocketChunks.EncodedDelivered` | lualib-src/lua-websocketnetpack.c:440-617 | encoded messages come apart into their payloads however the stream is cut |
| `WebSocketNetpack.DecodeMask` | lualib-src/lua-websocketnetpack.c:305-327 | unmasks from the running offset, bit by bit, and advances it |
| `WebSocketNetpack.FillHeader` | lualib-src/lua-websocketnetpack.c:456-493 | for every chunk, the header loop stops where the rules for resuming say, with the bytes they keep, or fails where they do |
| `WebSocketNetpack.Netpack.PushMore` | lualib-src/lua-websocketnetpack.c:361-427 | queues every whole frame of the buffer and keeps the rest, or fails exactly when that does not fit the record |
| `WebSocketNetpack.Netpack.Fill` | lualib-src/lua-websocketnetpack.c:516-549 | continues a payload and hands on what follows it |
| `WebSocketNetpack.Netpack.Filter` | lualib-src/lua-websocketnetpack.c:440-617 | one chunk of any stream on one connection: payloads, record and failure as the rules for chunks say, other connections untouched |
| `WebSocketNetpack.Run` | lualib-src/lua-websocketnetpack.c:440-617 | any connections, streams, interleaving and chunking: fails exactly when some connection does; otherwise each gets what its own chunks yield, and the payloads of its whole stream if that is exact |
| `WebSocketNetpack.NobodyFails` | lualib-src/lua-websocketnetpack.c:440-617 | connections whose streams are exact or plain do not fail |
| `HarborFrames.UnpackAppend` | skynet/service-src/service_harbor.c:389-501 | cutting the stream of a link in two does not change what comes out |
| `HarborFrames.AnyCutting` | skynet/service-src/service_harbor.c:389-501 | however a stream is cut, the same messages come out |
| `HarborFrames.FrameBack` | skynet/service-src/service_harbor.c:282-342 | a frame is read back with its header if and only if its length is below 2^24; otherwise the link closes |
| `HarborFrames.FramesBack` | skynet/service-src/service_harbor.c:282-342 | a stream of such frames comes apart into the messages that went in |
| `HarborFrames.FrameLayout` | skynet/service-src/service_harbor.c:274-342 | every octet of a frame: the length, the data, then source, destination and session, most significant octet first |
| `Harbor.MsgQueue.Push` | skynet/service-src/service_harbor.c:91-110 | appends a message, doubling a ring that has only its free slot left |
| `Harbor.MsgQueue.Grow` | skynet/service-src/service_harbor.c:95-106 | the copy into the larger ring keeps messages and order |
| `Harbor.MsgQueue.Pop` | skynet/service-src/service_harbor.c:121-129 | takes the first message of a wrapped ring |
| `Harbor.Link.DispatchQueue` | skynet/service-src/service_harbor.c:389-405 | what waits goes to the socket in order |
| `Harbor.Link.SendHandle` | skynet/service-src/service_harbor.c:517-554 | a message by handle is queued until the link is up, then sent, and lost once it is down; order is kept |
| `Harbor.Link.Connect` | skynet/service-src/service_harbor.c:606-633 | our number first, then, on a connection made to us, what waits |
| `Harbor.Link.Receive` | skynet/service-src/service_harbor.c:451-501 | one chunk on a link that is up: the messages that the bytes since the last whole one and the chunk hold, the link closed or a short content met where they say so |
| `Harbor.Link.Data` | skynet/service-src/service_harbor.c:407-501 | the same with the handshake in front, after which what waits goes out |
| `Harbor.Drive` | skynet/service-src/service_harbor.c:389-633 | any run of a link: messages by handle reach the socket in send order through wait, handshake and header, none missing or twice once the link is up |
| `Harbor.Reassemble` | skynet/service-src/service_harbor.c:407-501 | any chunking of the frames of small messages gives exactly those messages and headers, in order |
| `DiffieHellman.MulModP` | skynet/lualib-src/lua-crypt.c:666-685 | a*b mod P for a up to P, without exceeding 64 bits |
| `DiffieHellman.PowModP` | skynet/lualib-src/lua-crypt.c:688-699 | congruent to a^b, reduced unless b is 1 |
| `DiffieHellman.PowModExact` | skynet/lualib-src/lua-crypt.c:702-707 | a^b mod P for every 64-bit a and b > 0, except that P to the first power stays P |
| `DiffieHellman.PublicKeyNotZero` | skynet/lualib-src/lua-crypt.c:741-759 | a public key is never 0, so the peer does not reject it |
| `DiffieHellman.SharedPower` | skynet/lualib-src/lua-crypt.c:724-737 | both orders of exponentiation agree modulo P |
| `DiffieHellman.Secret` | skynet/lualib-src/lua-crypt.c:724-737 | the power, or an error exactly for a zero key |
| `DiffieHellman.Exchange` | skynet/lualib-src/lua-crypt.c:741-759 | the power of 5, or an error exactly for a zero key |
| `DiffieHellman.Agree` | skynet/lualib-src/lua-crypt.c:724-759 | both sides derive the same secret for all non-zero keys |
| `Des.SwapTwice` | skynet/lualib-src/lua-crypt.c:203-212 | each masked swap undoes itself |
| `Des.FinalUndoesInitial` | skynet/lualib-src/lua-crypt.c:203-225 | DES_FP inverts DES_IP |
| `Des.InitialUndoesFinal` | skynet/lualib-src/lua-crypt.c:203-225 | DES_IP inverts DES_FP |
| `DesTables.InitialTable` | skynet/lualib-src/lua-crypt.c:203-212 | DES_IP is the table of FIPS 46-3 entry by entry, with both halves rotated left by one |
| `DesTables.RoundsAreHalves` | skynet/lualib-src/lua-crypt.c:315-337 | the rounds produce the halves of the recurrence of FIPS 46-3, for any round function |
| `Des.PaddedIs` | skynet/lualib-src/lua-crypt.c:381-391 | padding keeps the text and puts 0x80 and zeros behind it |
| `Des.RoundsBack` | skynet/lualib-src/lua-crypt.c:226-242 | sixteen rounds, for any round function, are undone by the subkeys in reverse order |
| `Des.BlockBack` | skynet/lualib-src/lua-crypt.c:315-337 | decrypting a block gives it back |
| `Des.Encode` | skynet/lualib-src/lua-crypt.c:365-397 | every block of the padded text, each on its own |
| `Des.Decode` | skynet/lualib-src/lua-crypt.c:399-438 | rejects impossible lengths and bad padding, otherwise strips exactly the padding; names the text that makes it read before its buffer |
| `Des.ReadsBeforeBuffer` | skynet/lualib-src/lua-crypt.c:423-433 | stripping runs past the front if and only if the text is a single block of eight zero bytes |
| `Des.RoundTrip` | skynet/lualib-src/lua-crypt.c:365-438 | decoding what was encoded gives the text back, for every length |
| `Serialize.IntegerBack` | skynet/lualib-src/lua-seri.c:143-174 | an integer of every width is read back with its sign |
| `Serialize.OneBack` | skynet/lualib-src/lua-seri.c:297-340 | unpacking a packed value gives it back and leaves what follows, nested tables included |
| `Serialize.ListBack` | skynet/lualib-src/lua-seri.c:218-237 | the array part is read back |
| `Serialize.PairsBack` | skynet/lualib-src/lua-seri.c:240-257 | the other pairs are read back up to the closing nil |
| `Serialize.MessageBack` | skynet/lualib-src/lua-seri.c:556-596 | a whole message unpacks to the list of values that was packed |
| `SerializeFormat.IntegerFormat` | skynet/lualib-src/lua-seri.c:143-174 | an integer takes the fewest bytes that hold it, lowest first in two's complement, and the first byte tells how many |
| `SerializeFormat.StringFormat` | skynet/lualib-src/lua-seri.c:192-215 | a string follows its length, which is in the first byte or in two or four bytes after it |
| `SerializeFormat.FirstByte` | skynet/lualib-src/lua-seri.c:16-36 | the first byte of every kind of value: its type and what goes with the type |
| `SerializeFormat.RestOf` | skynet/lualib-src/lua-seri.c:218-257 | what follows it: the eight bytes, or size, array part and pairs in order, and a nil |
| `SerializeBlocks.WriteBlock.Push` | skynet/lualib-src/lua-seri.c:66-85 | appends the bytes across as many blocks as needed |
| `SerializeBlocks.WriteBlock.Seri` | skynet/lualib-src/lua-seri.c:535-553 | the chain as one buffer is the concatenation of all pushes |
| `SerializeBlocks.PackOne` | skynet/lualib-src/lua-seri.c:297-340 | appends the packed value, or refuses exactly what is nested too deeply |
| `SerializeBlocks.PackTable` | skynet/lualib-src/lua-seri.c:283-294 | size, array part, pairs and the closing nil |
| `SerializeBlocks.PackMessage` | skynet/lualib-src/lua-seri.c:600-613 | refused exactly when some table is nested too deeply, otherwise a buffer that unpacks to the same values |

## Left out

- TimerWheel.Timer.Update: the wall clock and skynet_updatetime, which decide how many ticks to make; bit operations on uint32 are written as division and remainder.
- PegCorrect.GenCorrect: captures, run-time captures, grammars and calls are not in the trees; a repeated pattern is never nullable, as the pattern constructors require.
- PegEmit.CompileState.Compile: instructions have width one, so the no-op in the second slot of a replaced jump does not appear; the backtrack stack has no limit.
- Scheduler.StepKeeps: a handle is identified with its service, so reuse of a handle after the 24-bit index wraps is not covered; registering and assigning the handle is one step.
- Scheduler.DispatchKeeps: the number of messages taken in one turn is left open; the monitor, profiling and the endless-loop check are not modelled.
- Scheduler.DropKeeps: the error reply to the sender of a dropped message is not modelled.
- BigIntMont.Mont: the fivefold unrolled copies of its inner loops are folded into the loops that follow them; scratch arrays are fresh instead of kept between calls.
- BigIntCompare.GreaterShift: arrays without any digit, where JavaScript reads undefined, are not given.
- BigIntShift.LeftShift: shifts below a digit, which is how divide_ shifts; a longer shift lengthens the array.
- BigIntPowEven.PowModEven: n has a leading zero digit, as powMod sees to; without one divide_ may not get past its leading digit.
- BigIntPowMod.PowModInPlace: the same leading zero, and the lengths of x that keep its products in their arrays.
- BigIntPowMod.PowModOdd: for an n without room in the scratch array of mont_ only that the result is reduced; powMod always makes room.
- Bigints.Mult: numbers are sequences of words; the free lists of Balloc and Bfree and the locks are not modelled.
- Quorem.Quorem: the floating-point drivers strtod and dtoa around it are not modelled.
- SharedConf.ConvTable: string keys are kept in the nodes instead of indices into a string table; values that cannot be shared and floating-point keys, which raise errors, are not given.
- Stm.StepKeeps: sequentially consistent memory; the reference count of stm_object itself is not modelled.
- SocketRun.Socket.SendSocket: UDP, user objects and the table of sockets are not modelled; poll flags are not either.
- WebSocketNetpack.Netpack.Filter: the handshake mode, the hash chains and the ring of the queue are not modelled; the model ends where the source writes past a header or asks for a negative number of bytes.
- Harbor.Link.SendHandle: messages by name, their queues and the table of names are not modelled, nor are messages to the own harbor.
- Harbor.Link.Receive: the model ends at a content shorter than its trailer, which the source reads anyway.
- Des.Encode: the tables, the key schedule and the round function are arbitrary.
- SerializeBlocks.PackOne: values of unsupported types, which raise an error, are not given; a table with __pairs is a table without array part.
- JSON, cluster packages, the log service, the names of handles, base64 and hexadecimal: not modelled.
- The Lua services, the game logic, the database clients and the web client apart from BigInt.js: not modelled; they would only add easy members.
