# Verification of irccd

A model, in Dafny 4.11, of the parts of the irccd repository that keep mutable state under an
invariant, with proofs of what they promise. `dafny verify dfyconfig.toml` checks all of it.

## What is modelled

**The event loop of libev** (`extern/libev`). `EvHeap` is the 4-ary timer heap with its cached keys
and back-indices, `EvTimers` the timers on it and the expiry pass, `EvQueue` the pending queues with
in-place cancellation and the drain loop, `EvDelivery` and `EvExpiry` what these give a watcher over
whole runs. `EvFds` is the interest in descriptors, reconciled lazily with a backend: `EvPoll` the
swap-remove table, `EvSelect` the bitsets. `EvList` is the linked watcher list, `EvArray` the growth
of arrays, `EvWatcher` the fields all of them share.

**The IRC connection** (`lib/irccd/conn.c`). `Connection` holds the two buffers in place, `Framing`
the theory of CR-LF framing (section 2.3 of RFC 2812), `Pipe` two connections joined by a lossless
pipe under every interleaving, `PipeSaid` which lines are accepted, and `PipeProgress` the condition
under which all lines arrive. `Message` is the in-place parser and the printer it inverts (section
2.3.1 of RFC 2812); `PipeMessages` joins the two, from the messages one end sends to those the other
gets.

**Three algorithms of the daemon** (`irccd`). `Strtok` and `Cut` are the line cutter, `UniTables` and
`Utf` the table lookups and the codec (section 3 of RFC 3629), `LexSpec` and `ConfLexer` the
configuration lexer that edits its text in place.

State that the source changes in place is changed in place here: objects with fields, arrays that
are shifted, cut and swapped, cursors that move. Each method is tied to a function of the state
before it, and the theorems are about these functions and hold for every input and every run.

## How the model reads the source

- Times are reals and integers are unbounded. Code points and UTF-8 bytes are bit vectors of 32 and
  8 bits, select words of 64; the case mappings wrap at 32 bits.
- An event mask is the set of its one bits: OR is union, AND is intersection.
- A callback is the list of queue operations it performs. A script gives one list for each call, and
  every theorem about calls holds for all scripts.
- A coroutine switch is the end of a step: the connection's coroutines interleave arbitrarily in
  `Pipe`, and the lexer is suspended between two calls of `Resume`.
- What the transport accepts or delivers is a parameter of the step.
- HPARENT is written so that the parent of the root is the root, as C division has it.

## What the proofs brought to light

- The fourth guard of the slow path in `downheap` (`extern/libev/ev.c:2614`) never holds: a fourth
  child would have taken the fast path (`EvHeap.FirstMinChild`).
- EV_ANFD_REIFY has the value of EV_READ, so that starting a watcher for writes at most, without
  EV__IOFDSET, on an unmarked descriptor leaves it unmarked although it is noted as changed: what the
  kernel reports before the next `fd_reify` is not held back (`EvFds.Fds.StartThenEvent`). `fd_reify`
  is right all the same (`EvFds.Fds.FdReify`), because it compares the masks.
- A timer without repeat that expires is stopped before it is fed, and the stop forgets whatever was
  pending for it (`EvTimers.Timers.Expire`).
- `irc__conn_msg_parse` never returns -EBADMSG: the command is always set (`Message.ParseInPlace`).
- `conn_next` answers 1 for empty and over-long lines without parsing them
  (`Connection.Conn.Next`).
- When the input buffer is full, whatever it holds, the next receive is offered no room, reads nothing
  and is taken for the end of the connection (`PipeProgress.LostIffReadsFull`). A line of 8095 bytes or
  more never arrives, and neither does anything behind it (`PipeProgress.StopsAtLongLine`,
  `PipeProgress.LongLineNeverArrives`). `irc__conn_push` accepts such a line, but its only caller,
  `irc_server_send_va`, formats into 512 bytes (`lib/irccd/server.c:934-941`): this program sends lines
  of at most 511 bytes, which all fit (`PipeMessages.FormattedExactly`, `PipeMessages.SentArrives`). If
  the receiver takes out complete lines before it reads on, a run whose lines hold no CR-LF is safe, and
  all of them can be delivered, exactly when each has at most 8094 bytes (`PipeProgress.FitsDecides`).
- A loss overwrites the whole input, with any complete lines still waiting in it
  (`PipeProgress.LossDropsInput`); the producer then finds the notice, once (`Pipe.LostTells`).
- Framing is faithful exactly for lines without CR-LF (`Framing.FaithfulIffCrlfFree`):
  `irc__conn_push` does not look for one.
- Four-byte sequences are encoded with a shift of 18 and decoded with a shift of 16: points from
  0x40000 on do not survive the round trip (`Utf.Folded`, `Utf.RoundTripIffLow`).
- The lexer's assertion at `irccd/conf.c:332` fails exactly for a text whose first byte is blank,
  since `conf_open` does not skip blanks before the first token (`ConfLexer.Lexer.Resume`).

## Model

| member | source | states |
|---|---|---|
| EvArray.ArrayNextSize | extern/libev/ev.c:2245-2264 | the size returned is at least `cnt` and at least twice `cur + 1`, also when it is rounded to 4096 bytes and divided by the element size; in bytes it is at most twice what is needed, one element and one chunk |
| EvArray.RoundedSizeSuffices | extern/libev/ev.c:2255-2261 | adding an element, the round-up and the malloc overhead, masking, subtracting the overhead and dividing never gives fewer elements than asked for |
| EvArray.RoundDown | extern/libev/ev.c:2258 | the mask keeps a multiple of 4096 less than 4096 below its argument |
| EvArray.NeedSize | extern/libev/ev.c:2279-2286 | the array is large enough afterwards and keeps its old contents |
| EvArray.NeedSizeFilled | extern/libev/ev.c:2276-2286 | the same with an initialiser: every new entry holds the filler |
| EvHeap.Parent | extern/libev/ev.c:2583-2586 | the parent is a slot of the heap, and is the slot itself exactly at the root (C division truncates) |
| EvHeap.MinChildIsLeast | extern/libev/ev.c:2599-2617 | the child found is a child and no later than any other; none is found exactly when there is none |
| EvHeap.FirstMinChild | extern/libev/ev.c:2601-2617 | the fast and the slow path find the same first least child; the fourth guard of the slow path can never hold |
| EvHeap.DownHeap | extern/libev/ev.c:2590-2630 | the shifting loop computes the exchanges of `SiftDown` in place and leaves every back-index right |
| EvHeap.UpHeap | extern/libev/ev.c:2670-2688 | the shifting loop computes the exchanges of `SiftUp` in place and leaves every back-index right |
| EvHeap.SiftDownOrders | extern/libev/ev.c:2590-2630 | an order that is intact but for the entry at k, which is not before its parent, is complete after sifting down |
| EvHeap.SiftUpOrders | extern/libev/ev.c:2670-2688 | an order that is intact but for the entry at k, which is not after its children, is complete after sifting up |
| EvHeap.SiftUpAppends | extern/libev/ev.c:2670-2688 | sifting up the last slot of an otherwise ordered array gives a heap that is one slot larger |
| EvHeap.SiftDownKeepsBag | extern/libev/ev.c:2590-2630 | sifting down keeps the multiset of entries |
| EvHeap.SiftUpKeepsBag | extern/libev/ev.c:2670-2688 | sifting up keeps the multiset of entries |
| EvHeap.RootIsEarliest | extern/libev/ev.c:3587 | the heap condition at every slot puts the earliest time at the root |
| EvHeap.AdjustedIsHeap | extern/libev/ev.c:2692-2698 | whatever a single slot was changed to, the direction chosen restores the heap and keeps its entries |
| EvHeap.AdjustHeap | extern/libev/ev.c:2692-2698 | the array is changed as `Adjusted` says and every back-index is right |
| EvHeap.ReheapedIsOrdered | extern/libev/ev.c:2702-2710 | from an array with arbitrary keys `reheap` makes a heap |
| EvHeap.ReheapedKeepsBag | extern/libev/ev.c:2702-2710 | `reheap` neither adds nor loses an entry |
| EvHeap.Reheap | extern/libev/ev.c:2702-2710 | the loop computes `Reheaped` in place and every back-index is right |
| EvQueue.Pending.constructor | extern/libev/ev.c:2312-2328 | with no watcher pending the empty queues are consistent |
| EvQueue.Pending.PendingIsSlot | extern/libev/ev.c:3570-3576 | `pending` is non-zero exactly when a slot of the watcher's priority holds it, and is then one more than that slot |
| EvQueue.Pending.QueuesAreTidy | extern/libev/ev.c:3570-3576 | every slot lies in the queue of its watcher's priority and no watcher holds two |
| EvQueue.Pending.FeedEvent | extern/libev/ev.c:2312-2328 | a pending watcher's slot takes the union of its events and the new ones, another is appended; the cursor goes to the top; consistency is kept |
| EvQueue.Pending.ClearPending | extern/libev/ev.c:4276-4301 | the slot is handed to the loop's dummy watcher, `pending` is zero and the events that were pending are returned |
| EvQueue.Pending.Perform | extern/libev/ev.c:3768-3770 | a callback that feeds and clears any watchers keeps the queues consistent and leaves nothing above the cursor |
| EvQueue.Pending.Pop | extern/libev/ev.c:3766-3768 | the newest slot of the queue is taken off and its watcher is no longer pending |
| EvQueue.Pending.ServeAll | extern/libev/ev.c:3764-3771 | the inner loop ends with the queue under the cursor empty, and its calls are the next ones of `Run` |
| EvQueue.Pending.InvokePending | extern/libev/ev.c:3755-3774 | for every script of callbacks the calls made are those of `Run`, always the newest slot of the highest priority pending at that moment; nothing is pending on return |
| EvQueue.Highest | extern/libev/ev.c:3757-3764 | the priority served is in use and every higher one is empty |
| EvQueue.RunUnfolds | extern/libev/ev.c:3763-3771 | when nothing above the cursor is pending, serving the cursor's queue is serving the highest priority |
| EvDelivery.AllDoneIsAfter | extern/libev/ev.c:2312-2328 | what the queues hold for a watcher after any feeds and clears follows from those on that watcher alone: feeds accumulate, a clear forgets |
| EvDelivery.EveryCallDelivers | extern/libev/ev.c:3764-3771 | in every run each call to a watcher carries exactly the union of the events fed to it since the later of its previous call and its last clear, and when the run is over nothing is owed to it |
| EvDelivery.CallCarries | extern/libev/ev.c:3764-3771 | bit by bit: a call carries a bit exactly if a callback before it fed that bit, or it was pending at the start, and the watcher was neither called nor cleared since |
| EvDelivery.AfterOpsCollects | extern/libev/ev.c:2312-2328 | after any feeds and clears a bit is owed exactly if some feed left it and no clear came behind, or it was owed before and none cleared it |
| EvDelivery.FirstCallDelivers | extern/libev/ev.c:3764-3771 | the first call to a watcher carries exactly the union of the events fed since it was last cleared, and it is never called only if nothing is owed to it |
| EvDelivery.SilentUntilFed | extern/libev/ev.c:3764-3771 | a watcher that holds no slot is not called before some callback feeds it |
| EvDelivery.ClearedStaysSilent | extern/libev/ev.c:4276-4284 | after a callback clears a watcher, no call goes to it until a callback feeds it again, whatever was queued |
| EvDelivery.NewestFirst | extern/libev/ev.c:3764-3769 | of two slots of one priority the newer is served first, whatever the callbacks do, unless one that runs before either is served cancels one of the two |
| EvDelivery.HeldIsCalled | extern/libev/ev.c:3764-3771 | a pending watcher is called, and its first call carries at least the events it held, unless a callback before that call cancels it |
| EvDelivery.RunPays | extern/libev/ev.c:3764-3771 | a watcher that no callback feeds is in no call if nothing was pending for it; and if none clears it either, it is in exactly one, with exactly what was pending |
| EvExpiry.EarlierOnTop | extern/libev/ev.c:2337-2343 | feeding a list backwards puts the earlier of two of its watchers on top of the later |
| EvExpiry.ExpiryOrder | extern/libev/ev.c:2330-2343 | of two watchers collected in due order at one priority, fed backwards and popped newest first, the one due first is called first, unless a callback that runs before both calls cancels one of them; what callbacks do to them afterwards is free |
| EvExpiry.FiredInOrder | extern/libev/ev.c:3801-3837 | the same for a whole pass in which the timers without repeat were stopped on the way |
| EvExpiry.PassOwes | extern/libev/ev.c:3801-3837 | a pass leaves EV_TIMER owed to every fired timer, joined to what was pending if it repeats and in its place if not, and nothing changed for any other watcher |
| EvExpiry.CallsPay | extern/libev/ev.c:3801-3837 | every fired timer, pending before or not, is called with EV_TIMER unless a callback before that call cancels it; a watcher that the callbacks leave alone is called once, with exactly what the pass left owed to it, or not at all if that is nothing |
| EvTimers.RescheduleAll | extern/libev/ev.c:3912-3930 | after every entry got a new time, whatever it is, `reheap` restores the heap with the same watchers and right back-indices |
| EvTimers.Adjust | extern/libev/ev.c:2692-2698 | a heap that is sound but for one slot is sound again |
| EvTimers.Enter | extern/libev/ev.c:4398-4400 | a watcher stored in the slot after the heap rises to its place; all of what `verify_heap` checks holds |
| EvTimers.Leave | extern/libev/ev.c:4417-4429 | the last entry takes the place of the one that leaves; all of what `verify_heap` checks holds for the others |
| EvTimers.Restamp | extern/libev/ev.c:4450-4451 | a new time in the watcher and its cached copy loosens the heap around that slot only |
| EvTimers.Timers.constructor | extern/libev/ev.c:3580-3592 | a loop without timers satisfies the invariant |
| EvTimers.Timers.ActiveIsArmed | extern/libev/ev.c:3586 | exactly the timers in the heap are active |
| EvTimers.Timers.RootIsNext | extern/libev/ev.c:3580-3592 | the root's cached time is its watcher's, and no active timer is due earlier |
| EvTimers.Timers.TimerStart | extern/libev/ev.c:4384-4405 | the invariant is kept; the timer joins the active ones with its time made absolute; a second start changes nothing |
| EvTimers.Timers.TimerStop | extern/libev/ev.c:4409-4436 | the invariant is kept; the timer leaves, is not pending, and its time is what was left; a second stop only clears |
| EvTimers.Timers.TimerAgain | extern/libev/ev.c:4440-4464 | the invariant is kept; with a repeat, of whatever sign if the timer is active, it is active and due that long from now; without one it is stopped |
| EvTimers.Timers.Reschedule | extern/libev/ev.c:3816-3826 | the root gets a new time and sinks to its place |
| EvTimers.Timers.Expire | extern/libev/ev.c:3809-3832 | one turn takes an earliest timer that is due: it is moved to the later of one repeat on and now, whatever the repeat, or stopped and its pending event lost |
| EvTimers.Timers.ExpireNext | extern/libev/ev.c:3809-3833 | each turn fires a timer that has not fired yet, in due order |
| EvTimers.Timers.ExpireAll | extern/libev/ev.c:3809-3833 | the loop ends, each due timer having fired once, earliest first, and none being due any more |
| EvTimers.Timers.FeedReverseDone | extern/libev/ev.c:2337-2343 | the collected timers are fed last to first and the list is empty |
| EvTimers.Timers.TimersReify | extern/libev/ev.c:3801-3837 | of the timers active on entry exactly those that are due fire, once each and earliest first; the repeating ones are due at the later of one repeat on and now, the others stopped; the queues receive them in reverse |
| EvTimers.Timers.ReifyAndInvoke | extern/libev/ev.c:3755-3837 | with the calls that follow, for every script: exactly the due timers fire, and the deadlines are those of a complete pass; a watcher that did not fire, had nothing pending and is fed by no callback is in no call; a fired one that no callback feeds or clears is in exactly one, and any fired one is called with EV_TIMER unless cancelled before; of two of one priority that were not pending, the one due first is called first, unless a callback that runs before both calls cancels one of them |
| EvList.Add | extern/libev/ev.c:4253-4258 | the linked list holds the element followed by the old elements |
| EvList.Del | extern/libev/ev.c:4260-4273 | the linked list holds its old elements in order without this one, and the element's own link is kept; an absent element changes nothing |
| EvList.UnlinkedMembers | extern/libev/ev.c:4260-4273 | removing an element leaves a duplicate-free list of exactly the others |
| EvPoll.PollBitsRoundTrip | extern/libev/ev_poll.c:75-78 | the poll bits of a mask stand for its read and write bits and nothing else |
| EvPoll.PollBitsAre | extern/libev/ev_poll.c:75-78 | bit 0 of what is asked, POLLIN, is on exactly for reads, bit 2, POLLOUT, exactly for writes, and no other bit is |
| EvPoll.Poll.TableHolds | extern/libev/ev_poll.c:54-89 | what is said of a descriptor is what the table holds: its one entry, or none |
| EvPoll.Poll.Modify | extern/libev/ev_poll.c:54-89 | table and index stay inverse to each other; the entry of the descriptor becomes what is asked, or disappears; no other entry changes |
| EvPoll.Poll.Drop | extern/libev/ev_poll.c:79-88 | removal by moving the last entry keeps table and index inverse and every other entry |
| EvSelect.MarkedIsIn | extern/libev/ev_select.c:128-134 | setting or clearing a descriptor's bit in its word changes membership of that descriptor only |
| EvSelect.Mark | extern/libev/ev_select.c:128-134 | the statements on one set change membership of one descriptor, in place |
| EvSelect.Select.Grow | extern/libev/ev_select.c:111-126 | growing the sets changes no membership |
| EvSelect.Select.Modify | extern/libev/ev_select.c:70-134 | the bits of this descriptor, `fd % 64` of word `fd / 64`, are on exactly for what the new mask asks; those of every other are as they were |
| EvSelect.BitsAreNumbered | extern/libev/ev_select.c:109 | on actual words: 1 is descriptor 0, 8 is descriptor 3, the top bit is 63, and the next word goes on from 64 |
| EvSelect.SelectPoll | extern/libev/ev_select.c:246-268 | the walk over the sets the kernel gives back reports each descriptor with a bit in either, once, from the highest down, with exactly its events |
| EvSelect.ReportAll | extern/libev/ev_select.c:246-268 | over the sets left by any calls, all being ready, the walk reports exactly the descriptors asked for, each with exactly the events the calls add up to |
| EvSelect.Compare | extern/libev/ev_select.c:70-134 | fed any sequence of calls, the bitsets and the poll table ask the kernel the same, which is what the calls add up to |
| EvFds.OrCollects | extern/libev/ev.c:2448-2449 | the union over a descriptor's list holds exactly the bits some watcher asks for |
| EvFds.UnionEvents | extern/libev/ev.c:2446-2449 | the loop over the list computes that union |
| EvFds.Fds.FdChange | extern/libev/ev.c:2470-2483 | the flags are added to the mark and the descriptor is noted, once more exactly when it was unmarked; no other mark changes; a descriptor not noted stays up to date |
| EvFds.Fds.IoStart | extern/libev/ev.c:4329-4357 | the invariant is kept; the watcher is active and first in the list of its descriptor, which is noted as changed, its mark growing by those of EV__IOFDSET and EV_ANFD_REIFY the watcher came with; its new-descriptor bit is dropped; no other list or mark changes and the backend is not touched |
| EvFds.Fds.IoStop | extern/libev/ev.c:4359-4380 | the invariant is kept; the watcher is neither active nor pending and has left the list of its descriptor, which is noted as changed and marked with EV_ANFD_REIFY; no other list or mark changes and the backend is not touched |
| EvFds.Fds.ReifyOne | extern/libev/ev.c:2435-2457 | one round makes its descriptor up to date and the backend agree with it |
| EvFds.Fds.FdReify | extern/libev/ev.c:2391-2467 | afterwards the backend is asked, for every descriptor, exactly for the union of the events of its active watchers, duplicates in the list of changes or not; no change is outstanding |
| EvFds.Fds.ReifyOnSelect | extern/libev/ev.c:2391-2467 | the same with the select sets as the backend: fed the calls made, they ask, for every descriptor, exactly for the union of the events of its active watchers, and the walk of select_poll reports exactly these when all is ready |
| EvFds.Fds.FdEvent | extern/libev/ev.c:2356-2380 | what is owed to each active watcher of the descriptor grows by those of the reported events it asked for, and nothing else changes; nothing at all if the descriptor is marked as changed |
| EvFds.Fds.StartThenEvent | extern/libev/ev.c:4329-4357 | a start notes the descriptor, and leaves it unmarked exactly when it was unmarked and the watcher asks for writes at most and comes without the new-descriptor bit; only then is what the kernel reports next fed, the new watcher first, instead of held back |
| Framing.FindIsFirst | lib/irccd/conn.c:438-441 | the index found is that of the first CR-LF |
| Framing.FindsLine | lib/irccd/conn.c:438-441 | the search finds the end of a framed line, whatever follows |
| Framing.ReceivedIsPrefix | lib/irccd/conn.c:432-451 | if the bytes of the lines sent are those of the lines received and a rest, the lines received are the first ones sent and the rest is exactly what is to come |
| Framing.ReceivedIsAll | lib/irccd/conn.c:432-451 | with no complete line left over, everything sent has been received |
| Framing.DecodedAccounts | lib/irccd/conn.c:432-451 | extracting lines from any bytes accounts for every byte, and what it extracts is free of CR-LF |
| Framing.FaithfulIffCrlfFree | lib/irccd/conn.c:704-718 | framing then extracting gives the lines back exactly when none contains a CR-LF |
| Connection.Conn.constructor | lib/irccd/conn.c:366-378 | a new connection has empty buffers and waits to identify |
| Connection.Conn.Push | lib/irccd/conn.c:704-718 | the whole framed line is queued behind the others, or nothing and -ENOBUFS, exactly when it would not leave a free byte |
| Connection.Conn.Send | lib/irccd/conn.c:384-405 | the bytes the transport took leave the front of the queue; an empty queue or a failure changes nothing |
| Connection.Conn.Recv | lib/irccd/conn.c:366-378 | the bytes delivered are appended to the input; a failure changes nothing and is returned |
| Connection.Conn.Wait | lib/irccd/conn.c:410-427 | what the socket is ready for is done, receiving first; a failed receive leaves the output alone, and the first failure is returned |
| Connection.Conn.FindLine | lib/irccd/conn.c:438 | the search returns the first CR-LF among the bytes in use |
| Connection.Conn.Next | lib/irccd/conn.c:432-451 | the first complete line leaves the input, the rest stays; it is parsed, in a buffer of its own that holds its pieces, exactly when it is neither empty nor 512 bytes long or longer; the result is 1 in either case |
| Connection.Conn.IdentResume | lib/irccd/conn.c:479-485 | the connection becomes ready exactly when nothing has failed and the queue has been drained; a failure is returned and it stays where it was |
| Connection.Conn.Lost | lib/irccd/conn.c:499-508 | the input is replaced by a message of the connection's own |
| Pipe.StepIsSound | lib/irccd/conn.c:366-508 | no push, partial send, partial receive or extraction loses, repeats or reorders a byte; a loss sets aside exactly what was in the input |
| Pipe.StepsAreSound | lib/irccd/conn.c:366-508 | the same for every interleaving, past a loss too |
| Pipe.DeliveredInOrder | lib/irccd/conn.c:366-718 | in every run whose accepted lines hold no CR-LF, the lines extracted are the first ones accepted, each once and in order, followed only after a loss by the notice, once; they are all of them when nothing is in flight and the connection is up; in every run at all, the connection is not ready before all of its hello was sent |
| Pipe.LostTells | lib/irccd/conn.c:499-508 | whatever happens after the loss, no further line of the sender is extracted; the next line extracted is the notice, and none comes after it |
| PipeSaid.AllSaidAccepted | lib/irccd/conn.c:704-718 | while the queue has room for all that is said, every line said is accepted, in order, in every state of both ends and past a loss |
| PipeSaid.SayDecides | lib/irccd/conn.c:704-718 | at any point of a run a line is accepted exactly if with its CR-LF it leaves a free byte beside what has been accepted and not been sent |
| PipeSaid.ReadyIffDrained | lib/irccd/conn.c:479-485 | the sender becomes ready exactly when some transmission has taken all that was queued |
| Pipe.NoticeIsDisconnect | lib/irccd/conn.c:504 | the notice is parsed to the command 000, which the server handles as a disconnection |
| PipeProgress.StopsAtLongLine | lib/irccd/conn.c:366-508 | in every run, nothing from the first accepted line on that does not fit into the input buffer with its CR-LF is ever extracted; all that is extracted are lines before it, and after a loss the notice |
| PipeProgress.LongLineNeverArrives | lib/irccd/conn.c:704-718 | a line of 8095 bytes is accepted, and no continuation extracts anything but the notice |
| PipeProgress.LossDropsInput | lib/irccd/conn.c:494-508 | a loss costs exactly the bytes that fill the input; every other byte accepted is in a line received, in the pipe or still queued |
| PipeProgress.LostIffReadsFull | lib/irccd/conn.c:366-378 | a run loses the connection exactly when some receive finds the input full, whether it holds complete lines or not |
| PipeProgress.EagerStaysUp | lib/irccd/conn.c:366-451 | when every accepted line fits into the input buffer and holds no CR-LF, a run that receives only while no complete line is waiting is never lost |
| PipeProgress.Delivers | lib/irccd/conn.c:366-718 | from any point of such a run some continuation delivers every line accepted, in order, without losing the connection |
| PipeProgress.FitsDecides | lib/irccd/conn.c:366-718 | at any point of a run that receives only while no complete line is waiting and accepts no CR-LF inside a line, all lines accepted can still be delivered, and no such continuation loses the connection, exactly when every line fits into the input buffer |
| Pipe.Link.Perform | lib/irccd/conn.c:366-718 | the buffers of two connections in place follow the steps of the flow, for every interleaving and past a loss; for every line taken out there is a message in order, parsed exactly when the line is neither empty nor too long, that holds its pieces |
| Pipe.Link.Identify | lib/irccd/conn.c:456-485 | the lines of the hello are queued in order before anything is sent, all of them if they fit |
| PipeMessages.FormattedExactly | lib/irccd/server.c:931-942 | what is pushed is a line of at most 511 bytes without NUL, and every such line can be pushed |
| PipeMessages.FormattedIsLongest | lib/irccd/server.c:931-942 | the line pushed is the text, cut only at 511 bytes or before its first NUL |
| PipeMessages.SentArrives | lib/irccd/server.c:931-942 | if every line accepted was pushed that way and holds no CR-LF, a run that receives only while no complete line is waiting is not lost, and some continuation extracts exactly these lines |
| PipeMessages.MessagesInOrder | lib/irccd/conn.c:432-451 | when the lines accepted are printed messages of 1 to 511 bytes, in every run the messages of the receiver are the first of these, piece by piece and in order, and after a loss the disconnection |
| PipeMessages.MessagesArrive | lib/irccd/conn.c:366-791 | from any point of a run that receives only while no complete line is waiting, some continuation brings exactly the messages sent |
| PipeMessages.SaidArrives | lib/irccd/conn.c:366-791 | the same from what is said: if the queue has room for it, some continuation brings exactly the messages said |
| Message.ParseInvertsPrint | lib/irccd/conn.c:739-791 | parsing a printed message returns the same prefix, command and arguments, however its line ends: with a colon-marked argument, a bare one, a trailing space, or right behind the prefix (section 2.3.1 of RFC 2812) |
| Message.LineIsPrinted | lib/irccd/conn.c:739-791 | every line without NUL is a printing, with one of these endings, of the message it is parsed to |
| Message.ParsesIffPrinted | lib/irccd/conn.c:739-791 | a line without NUL is parsed to a message exactly when it is one of its printings |
| Message.ParseTrailing | lib/irccd/conn.c:739-791 | spelled out: a line `:prefix command first :rest` has this prefix, this command and these two arguments |
| Message.ParseMiddle | lib/irccd/conn.c:739-791 | spelled out: a line `command first second` has no prefix, this command and these two arguments |
| Message.ParseStopsAtNul | lib/irccd/conn.c:761 | a line is parsed up to its first NUL |
| Message.ParseReturnsExactly | lib/irccd/conn.c:739-791 | the messages the parser can return are exactly those that can be printed |
| Message.ArgsInvertsPrint | lib/irccd/conn.c:773-785 | the argument loop inverts the printing of middle arguments and a last one that is colon-marked, bare, or bare with a space behind it |
| Message.ArgsArePrinted | lib/irccd/conn.c:773-785 | every non-empty argument text is such a printing of the arguments read from it |
| Message.FindChar | lib/irccd/conn.c:744 | the search stops at the first such character or at the end of the string |
| Message.Scan | lib/irccd/conn.c:739-749 | the word at the pointer is terminated in place, the pointer goes behind its space or to the end, and nothing else changes |
| Message.NextArg | lib/irccd/conn.c:774-784 | one round isolates the next argument and leaves the rest of the line to the following rounds |
| Message.ParseArgs | lib/irccd/conn.c:773-785 | the pointers collected are disjoint NUL-terminated slices of the buffer that hold the arguments in order |
| Message.ParseBody | lib/irccd/conn.c:771-785 | the command and the arguments are disjoint NUL-terminated slices behind the pointer |
| Message.ParseInPlace | lib/irccd/conn.c:751-791 | the buffer ends up holding the pieces of `Parse` as disjoint NUL-terminated slices; the result is always 0 |
| Message.Duplicate | lib/irccd/conn.c:761 | the copy ends at the first NUL of the line |
| Strtok.TokensAreClean | irccd/jsapi-util.c:130-133 | no token is empty or holds a blank |
| Strtok.TokensOfJoin | irccd/jsapi-util.c:227-260 | tokenising what was joined with a delimiter gives the parts back |
| Strtok.TokensConcat | irccd/jsapi-util.c:130 | the tokens on the two sides of a delimiter are found independently |
| Strtok.Strtok | irccd/jsapi-util.c:130 | one call returns the next token and where to go on, and none exactly when there is none |
| Strtok.Split | irccd/jsapi-util.c:130-133 | the loop appends all tokens of the string to the list, in order |
| Cut.GreedyPacks | irccd/jsapi-util.c:194-228 | if every token fits on a line, the lines built hold the tokens in order, within the width |
| Cut.GreedyStaysAhead | irccd/jsapi-util.c:194-228 | no packing of the same tokens is behind: it has more lines, or as many and a last line no narrower |
| Cut.GreedyIsOptimal | irccd/jsapi-util.c:194-228 | no packing uses fewer lines than the greedy one |
| Cut.PackableIffGreedy | irccd/jsapi-util.c:194-228 | the tokens can be packed within the limits exactly when each fits and the greedy lines are not too many |
| Cut.Place | irccd/jsapi-util.c:208-227 | one round writes the token where the greedy packing has it, keeping line size and lines left in step, and stops exactly when it would need a line too many |
| Cut.AnswersDecide | irccd/jsapi-util.c:197-221 | an error is reported only when nothing could have been joined |
| Cut.JoinTokens | irccd/jsapi-util.c:183-234 | it succeeds exactly when some packing respects both limits; the text is that of the greedy lines; otherwise the token reported is the first that is too long or that needs a line too many |
| Cut.PageIsReadBack | irccd/jsapi-util.c:257-260 | cutting the text at its newlines gives the lines back, and their words are the words packed |
| Cut.Gather | irccd/jsapi-util.c:124-164 | the words of all the strings given, in order, none of them empty |
| Cut.InkOfWords | irccd/jsapi-util.c:130-133 | the words of several strings, one after the other, are the strings without their spaces, tabs and newlines |
| Cut.UtilCut | irccd/jsapi-util.c:236-266 | the bounds are the numbers given, 72 columns standing for an absent one; an error is raised for a number that is not positive and for no other; the lines returned hold all the words in order, one space apart, losing nothing but white space, each within the width, no more of them than allowed and no more than any packing needs; they are returned exactly when some packing respects the bounds |
| UniTables.Search | irccd/unicode.c:32-53 | over rows that start at increasing points, the row found is the last one that starts at or before c; none is found exactly when there is none |
| UniTables.Lookup | irccd/unicode.c:75-78 | over rows that do not overlap, looking in that row only finds what a scan of all rows finds |
| UniTables.Table.ScanFinds | irccd/unicode.c:75-78 | a scan finds the one row that holds c, if there is one |
| UniTables.IsClass | irccd/unicode.c:788-803 | a point is in the class exactly when some range or some single point of the tables holds it |
| UniTables.SpacesAreSorted | irccd/unicode.c:55-67 | the rows of the space table are in order and do not overlap |
| UniTables.SpacesAreWhite | irccd/unicode.c:55-67 | the points listed in it are these ranges and these points |
| UniTables.IsSpace | irccd/unicode.c:69-80 | the result is true for these points and no others |
| UniTables.ToMapped | irccd/unicode.c:4825-4840 | the result is that of scanning the ranges, then the single points, shifted in 32-bit arithmetic by the biased distance of the row, or the point itself |
| UniTables.LettersAreMapped | irccd/unicode.c:2761-2762 | by the first rows of the tables the letters a to z become A to Z, those become a to z, and nothing else changes |
| Utf.Folded | irccd/unicode.c:4879-4931 | for encodable points, decoding after encoding gives the point back exactly below 0x40000 |
| Utf.DecodeEncoded | irccd/unicode.c:4843-4939 | decoding what was encoded takes exactly its bytes, whatever follows, and gives the folded point; a non-zero point has no zero byte |
| Utf.EncodeSpells | irccd/unicode.c:4843-4891 | in plain arithmetic: a first byte of 0xC0, 0xE0 or 0xF0 plus a digit, then bytes of 0x80 plus a digit below 64; the digits, most significant first, add up to the point in base 64, and no shorter form would hold it |
| Utf.LengthByLead | irccd/unicode.c:4942-4955 | the first byte tells the length by the ranges below 0x80, 0xC0 to 0xDF, 0xE0 to 0xEF, 0xF0 to 0xF7, and no sequence starts with any other |
| Utf.PointOfThree | irccd/unicode.c:4912-4919 | three bytes are read as four bits and twice six, whatever their marks |
| Utf.PointOfFour | irccd/unicode.c:4920-4928 | of four bytes the first is laid two bits too low, over the second; the others are six bits each |
| Utf.Uni8Encode | irccd/unicode.c:4843-4891 | the bytes written spell the point and are those of the encoding and no others; ERANGE and EILSEQ exactly for a lack of room and a point above 0x1FFFFF, the buffer then being untouched |
| Utf.Uni8Decode | irccd/unicode.c:4893-4939 | a sequence that the NUL cuts short, or that no first byte starts, is EILSEQ, and bytes past the NUL are never read |
| Utf.DecodeEncodedAll | irccd/unicode.c:4975-5077 | a NUL-free string of encodable points is encoded without NUL, and decoded to its folded points |
| Utf.RoundTripIffLow | irccd/unicode.c:4975-5077 | the round trip of a string is the identity exactly when all of its points are below 0x40000 |
| Utf.Uni32Requires | irccd/unicode.c:5031-5049 | the bytes the string takes, exactly when every point has an encoding and their number stays below SIZE_MAX; EILSEQ exactly when a bad point comes before that limit |
| Utf.Uni32To8 | irccd/unicode.c:5052-5077 | it succeeds exactly when every point has an encoding and there is room for the bytes and a NUL, and then wrote them; EILSEQ exactly when a bad point is reached before the room is used up; nothing past the room is written |
| Utf.Uni8To32 | irccd/unicode.c:4975-5000 | it succeeds exactly when all of the string decodes and there is room for the points and a NUL, and then wrote them; EILSEQ exactly when a bad sequence is reached before the room is used up |
| Utf.ThereAndBack | irccd/unicode.c:4975-5077 | with the room that was asked for, both conversions succeed; the string comes back exactly when its points are below 0x40000 |
| LexSpec.LexOfPrint | irccd/conf.c:306-339 | lexing inverts printing for every layout: strings quoted or bare, and any blanks and comments between the tokens |
| LexSpec.Unprint | irccd/conf.c:306-339 | every text that is lexed to its end is a printing of the tokens it was lexed to |
| LexSpec.LexesIffPrinted | irccd/conf.c:306-339 | the lexer comes to the end of a text, and does not give up on an unterminated string, exactly when the text could have been printed from tokens |
| LexSpec.OneCharacter | irccd/conf.c:253-259 | what each character means on its own: the three marks, the blanks, the comment sign, the quote, and a string for any other |
| LexSpec.NewlinesAre | irccd/conf.c:176-178 | the count that the line is kept by is the number of newlines |
| LexSpec.PieceIsRead | irccd/conf.c:220-290 | a quoted string, a bare string or a mark is read back as its token, unless a bare string runs into what follows |
| LexSpec.GapIsSkipped | irccd/conf.c:187-192 | blanks and comments between tokens are not seen |
| LexSpec.ClosersOfPrint | irccd/conf.c:233-237 | the bytes cut in a printed text are exactly the closing quotes of its quoted strings |
| LexSpec.ClosersAreQuotes | irccd/conf.c:233-237 | the positions cut are positions of quotes in the source |
| LexSpec.PassWord | irccd/conf.c:267-284 | while the lexer is suspended at a bare string, the C string at its start is its lexeme |
| LexSpec.PassQuoted | irccd/conf.c:220-246 | the C string behind an opening quote is what stands between the quotes |
| ConfLexer.Lexer.constructor | irccd/conf.c:1026-1034 | the lexer starts at the first byte, line 1, the text untouched |
| ConfLexer.Lexer.Advance | irccd/conf.c:172-182 | the line is 1 plus the newlines consumed; never called at the end of the text |
| ConfLexer.Lexer.Bskip | irccd/conf.c:187-192 | blanks are consumed and no token is lost; the next byte is not blank |
| ConfLexer.Lexer.Comment | irccd/conf.c:295-304 | a comment and the blanks after it are consumed and no token is lost |
| ConfLexer.Lexer.Sign | irccd/conf.c:316-322 | the mark is yielded and what is left to lex is what followed it |
| ConfLexer.Lexer.String | irccd/conf.c:262-284 | the string yielded reads as its lexeme while suspended; the byte under its NUL is kept |
| ConfLexer.Lexer.QString | irccd/conf.c:220-246 | the string yielded reads as what stood between the quotes, the closing one being lost; without one the run ends, at the line of the end of the text |
| ConfLexer.Lexer.Settle | irccd/conf.c:286-289 | resuming puts the byte back and skips blanks; no token is lost |
| ConfLexer.Lexer.Resume | irccd/conf.c:306-339 | each resumption yields the next token of the source and consumes input; the assertion fails exactly when the very first byte is blank |
| ConfLexer.Lexer.Run | irccd/conf.c:306-339 | a whole run yields the tokens of the source; afterwards the buffer differs from it by a NUL at each closing quote and nothing else, and the line is 1 plus its newlines; it aborts exactly when the first byte is blank |
| ConfLexer.LexPrinted | irccd/conf.c:306-339 | printing tokens in any layout and running the lexer gives the tokens back |

## Left out

- Sockets, TLS, name resolution, clocks, epoll and the other kernel backends, fork, files and all
  scripting glue: foreign calls.
- Integer overflow of sizes and counters, floating-point rounding and `periodic_recalc`.
- Timers and io watchers started or stopped inside callbacks: a callback is reduced to what it does
  to the queues, and `ev_invoke_pending` called from within a callback is not modelled.
- `pri_adjust` (a watcher's priority is constant and within bounds), `idle_reify`, `fd_kill` and the
  other error recovery of descriptors, `ev_ref` and `ev_unref` beyond the count they keep.
- A watcher's `events`, `fd`, `repeat` and `at` changed by hand while it is active.
- EvTimers.Timers.Expire: the assertion of `extern/libev/ev.c:3822` that the repeat is positive is not modelled; what is stated holds for a negative repeat as well.
- EvFds.Fds.IoStart: the watchers of a descriptor are a sequence here; the links that hold them are modelled in EvList, which is not wired into the table.
- EvFds.Fds.ReifyOnSelect: the loop drives the poll table and keeps the list of the calls it makes; the select sets are fed that list afterwards instead of call by call.
- EvQueue.Pending.FeedEvent: the queues are sequences, so that their allocated size and its growth are not part of the state; EvArray covers the growth.
- EvTimers.RescheduleAll: the new times are a parameter, since the callbacks and the recalculation that give them are foreign to the heap.
- Connection.Conn.Next: for a line that is not parsed there is no message; the source leaves the caller's message as it was.
- PipeProgress.FitsDecides: that the producer takes complete lines out before the socket is read again is a condition on the run; whether the coroutine library schedules it so is not part of this model.
- Pipe.Link.Perform: one direction of one connection, the receiving end being past its own identification, over a transport that does not fail by itself; reconnecting (which follows a loss), the ping timer and the activity mask are not part of this model.
- Connecting to one of several endpoints (`conn_connect`), and the contents of the hello lines.
- Message.ParseInPlace: allocation failures are not modelled.
- Cut.UtilCut: strings are taken without embedded NULs and allocation failures are not modelled.
- UniTables.IsSpace: the one concrete table; the other classes and the case mappings are covered for any sorted tables by IsClass and ToMapped, not by their data.
- `uni8_length` and `uni32_length`.
- ConfLexer.Lexer.Advance: the column is not modelled; the source does not count an opening quote in it.
- The configuration parser behind the lexer, and the pushback of one token in `conf_next_is`: its queue belongs to a coroutine library whose source is not part of this model.
- Rules, hooks, plugins, channels, user lists and command dispatch.
