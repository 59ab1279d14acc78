# Hiemal core: a verified model

Hiemal moves audio bytes through in-memory buffers, intrusive lists and sample filters written in C. This
project models that core in Dafny and proves what it is meant to keep.

| file | what it models |
|---|---|
| `bytes.dfy` | bytes, C's truncating `%`, `memcpy`, a few laws of sequences |
| `fifo.dfy` | the bounded byte queue that a buffer stands for: one request, whole runs, the stream of bytes |
| `ring.dfy` | the ring buffer on values: counts, the steps of a read and a write, whole calls, runs, views |
| `linear.dfy` | the linear buffer on values, and exactly when it answers as the ring does |
| `concurrent.dfy` | any number of threads on one ring, step by step under the mutex, with the event records |
| `polling.dfy` | registering events on the shared ring, what their pipes then hold, and polling them |
| `progress.dfy` | no deadlock: from every state all calls can be brought to their return |
| `check_then_act.dfy` | callers that size a call by a count taken without the mutex |
| `events.dfy` | event pipes: the broadcast of records and the polling loop |
| `buffer.dfy` | the handle `buffer_t` as an object changed in place, both kinds, with events and mutex |
| `clients.dfy` | the Python methods and the chunked PulseAudio transfers |
| `fir.dfy` | the FIR filter, its in-place shifts and dot product; the cascade and block laws |
| `kwargs.dfy` | the keyword-argument format scanner and `kwargs_unpack` |
| `list.dfy` | intrusive doubly linked lists and reference lists on the heap |
| `array.dfy` | growable arrays, `u64sum`, and copies between lists and arrays |
| `devices.dfy` | grouping PulseAudio io nodes by card |

How to read the buffer part. `Ring.After` is one locked call as the composition of its steps (clamp, first
copy, second copy, pointer move, settling of pointers and state). `Buffers.Buffer` does the same in place and
is proved equal to it. `Concurrent` lets any threads interleave between those steps. All three are proved
against `Fifo`.

Conventions. Pointers into a buffer are offsets from its start. Sizes are natural numbers; buffer lengths are
meant below 2^31, so that the conversions between `int` and `unsigned int` in the source lose nothing, and
unsigned wrap-around is written out where a result depends on it (`buffer_view`, list indices, `hm_array_concat`,
`u64sum`). Lists have fewer than 2^32 nodes and byte sizes stay below 2^63. `malloc` and `realloc` succeed.
Samples are real numbers.

What the proofs bring out about the code:

* `buffer_view` on a ring subtracts unsigned and clamps the size without regard to the offset. It shows the queue
  if and only if the bytes asked for are all queued and it starts before the wrap (or asks for nothing); of the
  other views, those that leave the storage are told exactly (`Ring.ViewIsExactBeforeTheWrap`), and
  `Ring.ViewPastTheQueue` tells which bytes a view that runs on past the queue returns.
* `buffer_view` on a linear buffer counts its offset from the start of the storage and keeps the mutex
  (src/core/buffer.c:525-527). It shows the queue, whatever the bytes, if and only if they are all queued and
  nothing has been read since the last drain (`Linear.LinearViewIsExactBeforeReading`,
  `Buffers.Buffer.BufferView`).
* `buffer_read` reports its events with the type WRITE, as `buffer_write` does (src/core/buffer.c:465, 503).
* `hm_list_remove` follows NULL at the index just past the last node, and `hm_list_remove_where` when the last
  node matches. Insertion, removal and lookup compare an index cut to 32 bits and then walk the whole of it, so
  an index of 2^32 or more may be walked past NULL. In all other cases they do what they promise
  (`Lists.List.Insert`, `Lists.List.At`, `Lists.List.Remove`, `Lists.List.RemoveWhere`; failing calls:
  `Lists.RemoveAtOneFails`, `Lists.RemoveWhereAllFails`, `Lists.InsertFarFails`).
* `hm_list_at` with a negative index gives NULL on a plain list, unlike insertion and removal.
* `next_arg` runs past the terminator exactly on a format that holds no name (`Kwargs.VisitOverruns`), so the
  empty list of arguments cannot be scanned.
* The count-then-fill grouping of devices stays inside its counting table and its allocations, whatever nodes of
  known cards come up, if and only if every card's id is the index at which a search for it ends
  (`Devices.NeverOverrunsIff`): a gap in the ids is counted outside the table, and ids in another order overrun an
  allocation (`Devices.GapsAndSwapsOverrun`). A node of a card that is not known is a failure of its own: the
  search gives -1, which is used as an index (src/core/pulse.c:81-83, `Devices.IoListToArray`).
* `hm_list_copy_array` leaves `data_size` of the new nodes unset (src/core/common.c:128-133). The list it makes can
  be copied back into an array without reading past a payload or past their concatenation if and only if every
  node happens to find the item size there (`Arrays.CopiesBackIff`); then the items come back
  (`Arrays.CopyBack`), and `Arrays.LeftoverZeroFails` is a list for which they cannot.
* `hm_array_concat` keeps the item count to 32 bits: past that, the joined bytes are written behind the old ones,
  inside the storage or not, and are not counted (`Arrays.HmArray.Concat`).

## Model

| member | source | states |
|---|---|---|
| Fifo.Conservation | src/core/buffer.c:424-515 | over any run, the bytes accepted are the bytes taken out followed by the bytes queued |
| Fifo.ReadsDeliverTheStream | src/core/buffer.c:508-515 | the i-th read returns the stretch of the accepted bytes that starts where the reads and discards before it ended |
| Ring.GapIsModular | src/core/buffer.c:148-152 | truncating remainder plus correction is one wrap of the pointer distance, unwrapped pointers included |
| Ring.CountsAgree | src/core/buffer.c:139-200 | the state and pointer arithmetic counts the queue and its complement; the linear stretches are bounded by them and, when shorter, end at the end of the storage |
| Ring.CopiesStayInside | src/core/buffer.c:400-416 | after the clamp, both copies of a read or a write stay inside the storage and inside the caller's bytes |
| Ring.CopiesLandBehindTheQueue | src/core/buffer.c:404-417 | the two copies of a write put its bytes right behind the queue, across the wrap, and leave queued bytes alone |
| Ring.CallRefinesFifo | src/core/buffer.c:395-506 | a locked call keeps the ring well formed and is one step of the bounded queue, in queue, count and bytes |
| Ring.GapAfterMove | src/core/buffer.c:216-236 | once the pointer has moved, but before it is wrapped and the state settled, the pointers tell the new free count up to a whole turn |
| Ring.RunRefinesFifo | src/core/buffer.c:374-506 | every run of writes, reads and discards answers as the bounded queue and ends with its queue |
| Ring.RingConservesBytes | src/core/buffer.c:395-506 | in every run of a ring, accepted bytes = removed bytes followed by queued bytes |
| Ring.RingDeliversTheStream | src/core/buffer.c:470-506 | in every run of a ring, each read returns its stretch of the accepted bytes, whatever was discarded before |
| Ring.ViewIsExactBeforeTheWrap | src/core/buffer.c:523-542 | for every offset and size: a view shows the queue if and only if its bytes are all queued and it starts no later than the wrap (or asks for none); it leaves the storage exactly when it starts beyond the wrap and has not ended by the end of the storage |
| Ring.ViewPastTheQueue | src/core/buffer.c:529-539 | a view that starts before the wrap and asks for more than is queued behind its offset returns the rest of the queue and then bytes from behind it or from the start of the storage |
| Ring.ViewBeyondTheWrapFails | src/core/buffer.c:524-529 | a concrete view that leaves the storage, and one that runs past the queue and returns its first byte again |
| Ring.PeekThenRead | src/core/buffer.c:470-542 | viewing at offset 0 and then reading give the same bytes |
| Linear.LinearCall | src/core/buffer.c:202-214 | every linear call keeps 0 <= read <= write <= length, resets exactly on drain, and keeps the state field right |
| Linear.LinearWriteOnQueue | src/core/buffer.c:381-393 | a linear write appends exactly the bytes it counts |
| Linear.LinearReadOnQueue | src/core/buffer.c:454-468 | a linear read serves a request as the bounded queue does |
| Linear.NeverAcceptsMoreThanRing | src/core/buffer.c:134-164 | with the same queue and length the linear buffer accepts at most what the ring does, and answers alike exactly when the request fits behind what was written before |
| Linear.AgreesWithFifo | src/core/buffer.c:381-468 | over a run the linear buffer answers as the bounded queue if and only if every write fits |
| Linear.AgreesWithRingWithinLength | src/core/buffer.c:381-506 | if the bytes requested since the last drain never exceed the length, both kinds give the same counts and bytes throughout |
| Linear.LinearViewIsExactBeforeReading | src/core/buffer.c:517-527 | a linear view shows the queue, whatever the bytes, if and only if those asked for are all queued and nothing has been read since the last drain |
| Concurrent.NoScheduleFaults | src/core/buffer.c:374-506 | under no schedule of any threads does a step leave the storage, go negative or divide by zero |
| Concurrent.EveryRunKeepsInv | src/core/buffer.c:374-506 | every state reached by any schedule satisfies the mutex, ring, history and pipe invariants |
| Concurrent.EveryScheduleIsLinearizable | src/core/buffer.c:395-506 | in every interleaving the answers are those of one sequential order of bounded-queue operations, each taking effect between its call and its return |
| Concurrent.EntersASettledRing | src/core/buffer.c:374-378 | whoever gets the mutex is alone and finds wrapped pointers, an up-to-date state and the queue left by the calls so far |
| Concurrent.TakesEffectBetween | src/core/buffer.c:395-506 | a return is preceded by exactly one taking effect with the same answer, itself after the call, so real-time order is kept |
| Concurrent.RecordTellsItsCall | src/core/buffer.c:419 | a record tells the bytes its call moved and the queue size just after it; readable + writeable = length |
| Polling.EventsHearEveryCall | src/core/buffer.c:121-125 | for every schedule that registers an event after `s1`: there is one pipe for each registration, and between calls the event's pipe holds exactly the records of the calls taking effect after `s1` and of the one still being reported then, in order |
| Polling.PollerPicksFirstCall | src/core/event_unix.c:109-124 | at any moment after the registration a poller picks the first call the event hears of that its condition accepts, or there is none among the calls reported |
| Polling.PollerPickStays | src/core/event_unix.c:109-124 | what a poller picks in the middle of a schedule it would also pick at its end, pipes only growing |
| Polling.PollMachine | src/core/event_unix.c:109-124 | the polling loop on such a pipe: the call it stops at, and the records it has consumed and left |
| Progress.NoOneIsStuck | src/core/buffer.c:374-376 | a thread in a call can go on whenever nobody else holds the mutex; a waiting call gets a free mutex |
| Progress.NoDeadlock | src/core/buffer.c:374-506 | in every reachable state with a call in progress some thread in a call can advance |
| Progress.EveryCallCanReturn | src/core/buffer.c:374-506 | from every reachable state, steps of the threads in a call are enough for every call made to return; then each thread may make any call |
| CheckThenAct.PointersTellFree | src/core/buffer.c:139-154 | an unlocked look at the pointers, in the middle of any locked call, tells the free bytes after the last call to take effect up to a whole turn |
| CheckThenAct.QuietCountIsExact | src/core/buffer.c:139-160 | a count taken while no call is in progress is exactly the free bytes, or the queued ones, and a call can be made on it exactly if it asks for no more |
| CheckThenAct.CountTellsRoom | src/core/buffer.c:139-160 | a count taken in the middle of another call is, when the state seen is NORMAL, the free bytes up to a whole turn; EMPTY and FULL count as all and nothing |
| CheckThenAct.SampledCountIsCovered | src/core/buffer.c:238-254 | a count taken by the only writer (only reader) without the mutex is covered by the room (bytes) there really is |
| CheckThenAct.CountIsSpent | src/core/pulse.c:175-185 | what is left of a count and what the calls sized by it have asked for since add up to it |
| CheckThenAct.SizedCallsMoveAll | src/python/hiemal/_c/src/buffer.c:94-146 | with one writer and one reader, in every interleaving a call made on a count returns exactly the size it asked for |
| Events.BufferWake | src/core/event_unix.c:126-144 | each event gets the record once for every time it is registered, after what its pipe already held |
| Events.PollBuffer | src/core/event_unix.c:109-124 | the poller stops at the first record its condition accepts, having taken it and all before it and nothing else |
| Events.PollResumes | src/core/event_unix.c:114-119 | waiting in between does not change which record the poller stops at |
| Buffers.Buffer.Init | src/core/buffer.c:291-309 | a fresh, empty, zero-filled buffer |
| Buffers.Buffer.InitExt | src/core/buffer.c:319-335 | an empty buffer over the caller's storage |
| Buffers.Buffer.Copy | src/core/buffer.c:337-348 | the same state in storage of its own, so that every later call is answered as by the original |
| Buffers.Buffer.Reset | src/core/buffer.c:265-270 | empties the buffer and leaves the storage |
| Buffers.Buffer.SetRbufState | src/core/buffer.c:216-236 | wraps the pointers in place and settles the state field |
| Buffers.Buffer.SetLbufState | src/core/buffer.c:202-214 | resets a drained linear buffer or settles its state field |
| Buffers.Buffer.RbufWrite | src/core/buffer.c:395-422 | in place: the whole new state and count of one ring write, and one record to each registered event |
| Buffers.Buffer.RbufRead | src/core/buffer.c:470-506 | in place: the whole new state, count and destination of one ring read or discard, and its records |
| Buffers.Buffer.LbufWrite | src/core/buffer.c:381-393 | the same for a linear write |
| Buffers.Buffer.LbufRead | src/core/buffer.c:454-468 | the same for a linear read |
| Buffers.Buffer.BufferWrite | src/core/buffer.c:424-445 | the first min(n, free) source bytes join the queue of either kind, and the free count falls by them |
| Buffers.Buffer.BufferRead | src/core/buffer.c:508-515 | the first min(n, used) queued bytes leave the queue of either kind for the destination |
| Buffers.Buffer.BufferView | src/core/buffer.c:517-542 | in place, either kind: the destination gets the bytes of the view and no state changes; a linear view returns 0 and keeps the mutex |
| Buffers.Buffer.EventAdd | src/core/buffer.c:121-125 | appends the event to the list, or refuses one that is not about a buffer |
| Clients.PyWrite | src/python/hiemal/_c/src/buffer.c:126-147 | the number returned is the number of bytes moved |
| Clients.PyRead | src/python/hiemal/_c/src/buffer.c:84-103 | the bytes object holds queued bytes to its full length, and with the rest makes up the old queue |
| Clients.PyPeek | src/python/hiemal/_c/src/buffer.c:105-124 | on a ring, the front of the queue; on a linear buffer, as many bytes from the start of the storage, with the mutex kept; the buffer is unchanged |
| Clients.SendChunks | src/core/pulse.c:135-146 | terminates; the chunks put together are the bytes to send; the stream is asked anew for each, which is as long as the answer and what is left allow, and the answers passed over were 0 |
| Clients.PulseWrite | src/core/pulse.c:128-150 | the stream gets the first min(n, readable) queued bytes, the queue keeps the rest |
| Clients.PulseRead | src/core/pulse.c:169-188 | the buffer gains exactly a prefix of the fragments put together, every piece accepted whole and no look taken in vain |
| Fir.ShiftUp | src/core/dsp.c:27-41 | in place: items move up by n, zeros come in at the start, a shift past the length clears |
| Fir.ShiftDown | src/core/dsp.c:11-25 | in place: items move down by n, zeros come in at the end |
| Fir.UpThenDown | src/core/dsp.c:11-41 | shifting up and back loses exactly the last n items |
| Fir.ImpulseResponse | src/core/ops/dsp/filter.c:24-28 | a single sample brings out the coefficients one by one, times the sample |
| Fir.SplitSignal | src/core/ops/dsp/filter.c:24-28 | the responses to two pieces of a signal add up; with the impulse response this determines the filter |
| Fir.Ddot | src/core/math.c:7-20 | mode f gives the middle sample of the convolution of the two sequences, any other mode their dot product |
| Fir.DotGrows | src/core/math.c:16 | the dot product grows by the product of the items added |
| Fir.FilterSample | src/core/ops/dsp/filter.c:25-27 | one round of the loop turns the delay line before sample i into the one after it and yields the convolution at i |
| Fir.FirFilter | src/core/ops/dsp/filter.c:16-31 | the output is the discrete convolution of coefficients and signal, also when filtering in place |
| Fir.CascadeIsConvolution | src/core/ops/dsp/filter.c:24-28 | filtering twice is filtering once with the convolution of the coefficients |
| Fir.BlocksOverlapByTheTail | src/core/ops/dsp/filter.c:21-28 | one call on two blocks is the first block filtered, then the second filtered plus the first one's tail, which is over after order-1 samples |
| Fir.SeparateCallsAgree | src/core/ops/dsp/filter.c:21-28 | two separate calls equal one call if and only if the tail of the first block is silent |
| Kwargs.NameCharacters | src/core/common.c:389 | letters, digits and the underscore make names, their neighbours do not |
| Kwargs.NextArg | src/core/common.c:391-430 | with its defaults filled in, one scan: where the next name starts, the length of this one, the flag after the gap |
| Kwargs.LastMarkDecides | src/core/common.c:413-417 | the optional flag follows the last mark of a gap and sticks without one |
| Kwargs.VisitOverruns | src/core/common.c:397-407 | iterating runs past the terminator if and only if the format names nothing |
| Kwargs.VisitPrinted | src/core/common.c:391-456 | round trip: iterating over a printed list of items visits exactly its names in order, each with its own flag |
| Kwargs.VisitExample | src/core/common.c:391-456 | the names and flags of the format `(a;)b;` |
| Kwargs.KwargsUnpack | src/core/common.c:432-474 | terminates; fails exactly at the first missing required key; slots before it hold the first argument of their key's name or their old value, the others are untouched |
| Kwargs.FindArg | src/core/common.c:458-464 | the first argument of that name |
| Lists.List.Insert | src/core/common.c:62-101 | sequence insertion at the index, -1 meaning the end; refused past the end, but NULL followed if only the low 32 bits of the index are inside; a reference list gets a new node that points to the given one |
| Lists.List.Append | src/core/common.c:170-172 | the node, or a new one pointing to it, becomes the last |
| Lists.List.At | src/core/common.c:141-159 | the node at the index, or its referent; past the last node NULL is returned or followed, for every index |
| Lists.List.Remove | src/core/common.c:208-230 | sequence deletion at the index, -1 meaning the last; refused past the end, NULL followed exactly at the end and where only the low 32 bits of the index are inside |
| Lists.List.RemoveWhere | src/core/common.c:232-258 | leaves the order-preserving filter of the nodes, correctly linked, freeing the matching ones in order; fails exactly when the last node matches |
| Lists.List.Clear | src/core/common.c:103-118 | empties the list, freeing in order the nodes that have a free function |
| Lists.MatchingInOrder | src/core/common.c:244-255 | the nodes picked are those at which the condition holds, all of them and in the order of the list |
| Lists.KeptAndMatching | src/core/common.c:244-255 | what is kept and what is removed make up the list, so the item count falls by the number of matches |
| Lists.RunOnList | src/core/common.c:62-118 | over every run of insertions, removals and clears the chain stays acyclic, doubly linked and as long as counted, and the data is that of sequence operations |
| Lists.RemoveAtOneFails | src/core/common.c:213-222 | a list of one node on which removing at 1 follows NULL |
| Lists.RemoveWhereAllFails | src/core/common.c:252 | a list of one matching node on which conditional removal follows NULL |
| Lists.InsertFarFails | src/core/common.c:68-76 | a list of one node on which inserting at 2^32 + 1 follows NULL |
| Lists.RunOnReflist | src/core/common.c:79-118 | any run on a reference list leaves a list owning the same nodes exactly as it was and frees none of its nodes |
| Arrays.U64Sum | src/core/math.c:22-29 | the sum modulo 2^64 |
| Arrays.TotalFits | src/core/math.c:22-29 | 32-bit sizes and counts cannot make the sum wrap |
| Arrays.HmArray.Resize | src/core/common.c:266-279 | contents kept, n_items <= n_items_alloc <= real capacity |
| Arrays.HmArray.CopyRaw | src/core/common.c:281-287 | the contents become the given items |
| Arrays.HmArray.Clear | src/core/common.c:289-296 | empties the array |
| Arrays.HmArray.At | src/core/common.c:343-350 | an item's place inside the contents, or NULL |
| Arrays.HmArray.Concat | src/core/common.c:352-361 | the other array's items, or its own, join the contents; when the count exceeds 32 bits it is cut, and the copy stays inside the storage or not |
| Arrays.HmArray.ConcatRaw | src/core/common.c:363-374 | the same from raw items, which may lie in the array itself |
| Arrays.Joined | src/core/common.c:331-335 | the running offset ends at the sum of the sizes and the data is the flattening of the payloads |
| Arrays.HmArray.CopyList | src/core/common.c:316-341 | the flattened payloads join the array, one item for each node |
| Arrays.HmArray.CopyToList | src/core/common.c:120-139 | one new node for each item joins the list, in order, by way of a reference if it is a reference list; its data size is what its memory held |
| Arrays.FlatSplits | src/core/common.c:328-336 | payloads of one size can be told apart in their flattening |
| Arrays.CopyThere | src/core/common.c:120-341 | list to array to list gives the payloads back, one node each, in order |
| Arrays.CopiesBackIff | src/core/common.c:128-136 | nodes that carry one size can be copied into an array of such items if and only if each says that size |
| Arrays.CopyBack | src/core/common.c:120-341 | array to list to array gives the items back if the new nodes happen to say the item size |
| Arrays.LeftoverZeroFails | src/core/common.c:128-136 | a copied list that cannot be copied back |
| Devices.GetDevIoId | src/core/pulse.c:42-53 | the first node of that name, or -1 |
| Devices.GetIndexFromCardId | src/core/pulse.c:55-61 | the first card with that id, or -1 |
| Devices.CountIos | src/core/pulse.c:65-71 | the table holds each card id's number of nodes, unless one falls outside it |
| Devices.IoListToArray | src/core/pulse.c:63-89 | for any nodes: it fails, outside the table, at an unknown card or beyond an allocation, unless the nodes fill the allocations exactly; then each card gets the order-preserving subsequence of its nodes in an array of exactly the counted size |
| Devices.FillsCompletely | src/core/pulse.c:73-86 | if no allocation is overrun, every one is filled |
| Devices.IndicesFillExactly | src/core/pulse.c:68-86 | when device i has card id i, placing agrees with counting |
| Devices.NeverOverrunsIff | src/core/pulse.c:65-83 | no list of nodes of known cards is counted outside the table or overruns an allocation if and only if each card's id is the index at which a search for it ends |
| Devices.GapsAndSwapsOverrun | src/core/pulse.c:65-83 | cards 0 and 7: a node of card 7 is counted outside the table; cards 1 and 0: a node of card 1 overruns |
| Devices.GroupInOrder | src/core/pulse.c:80-86 | a group holds the nodes placed there, all of them and in the order of the list |
| Devices.GroupsPartition | src/core/pulse.c:80-86 | every node is placed exactly once: the groups together are the nodes, as a multiset |

## Left out

- PulseAudio and ALSA connections, backends, devices: foreign libraries; the stream is an oracle that answers the k-th question.
- Floating point: the filter is over real numbers, so rounding is not modelled.
- `dct_2_64f`, `src_sin` and the pcm conversions of src/core/dsp.c: trigonometry and casts.
- src/core/format.c, src/core/stream.c, src/util, recording, logging, file and thread wrappers, generated operator code: plumbing around the modelled core.
- `buffer_set_rpos`, `buffer_set_wpos`, `buffer_set_state` and the fd sets of src/core/buffer.c: setters that bypass the buffer's invariant, and raw writes to descriptors.
- `buffer_reset` as a concurrent step: it takes no mutex, so no interleaving with it is claimed.
- Concurrent.EveryScheduleIsLinearizable: memory is sequentially consistent, and each step of a thread (a copy, a pointer move with its wrap pending, the settling of the state) happens at once; a poller is not a thread of the machine: `Polling.PollMachine` runs it on a pipe as it stands at some moment, and `Polling.PollerPickStays` says that later records do not change its pick.
- CheckThenAct.SampledCountIsCovered: the two pointers of a count are loaded in one step after the state field; one of them belongs to the sampling thread itself and cannot move meanwhile.
- Polling.EventsHearEveryCall: each registration has a pipe of its own; an event registered twice gets the records of both, as `Events.BufferWake` states.
- Events.PollBuffer: a poller with nothing to read waits; the model ends there, and `Events.PollResumes` says that going on later makes no difference.
- Lists.List.RemoveWhere: after following NULL the program is lost, so nothing is said about the list in that case.
- Arrays.HmArray.CopyList: payloads shorter in total than the items taken out of them would be read past their end; the precondition excludes them.
- Arrays.HmArray.Concat: arrays of the same item size only, and two arrays do not share storage unless they are one.
- Clients.PyRead: negative sizes and failing allocations of the Python layer.
- Callbacks on list nodes (`hm_list_itr`, `hm_list_find`): easy walks over a chain already proved well formed.
