/** Any number of threads calling `buffer_write` and `buffer_read` on one ring, step by step: the locked
    bodies of `_rbuf_write` and `_rbuf_read` (src/core/buffer.c), the counts taken without the mutex by
    the callers that check before they act, and the record broadcast of src/core/event_unix.c.  Between
    any two steps of a thread, steps of the others may happen. */
module Concurrent {
  import opened Bytes
  import opened Fifo
  import opened Ring
  import opened Events

  /** Where a thread is.  From Locked to Woken it holds the mutex. */
  datatype Phase =
    | Idle
    | Sampling(seen: State)   // taking a count without the mutex: the state field is loaded, the pointers are not
    | Called                  // called, waiting for the mutex
    | Locked
    | Clamped                 // n is known
    | Measured                // lin is known
    | FirstCopied
    | SecondCopied
    | Moved                   // the pointer has moved but is not wrapped, and the state field is stale
    | Waking(next: nat)       // pointer and state settled; records sent to the events before `next`
    | Woken
    | Released                // mutex given back, about to return

  datatype Side = ForWrite | ForRead

  /** A thread's locals: its call, and of the count it sampled last what it has not used up. */
  datatype Thread = Thread(phase: Phase, req: Request, n: nat, lin: nat, out: seq<byte>,
                           side: Side, budget: int, sized: bool)

  /** Calls, the moments they take effect, and returns. */
  datatype Event =
    | Invoke(thread: nat, req: Request)
    | Commit(thread: nat, req: Request, resp: Response)
    | Return(thread: nat, resp: Response)

  /** The shared memory and the threads; then, for stating properties only, the ring as the holder of the
      mutex found it, for each registered event how many calls had taken effect before those it hears of,
      and the history. */
  datatype Machine = Machine(ring: Buf, holder: Option<nat>, threads: map<nat, Thread>, pipes: seq<seq<IoRecord>>,
                             base: Buf, since: seq<nat>, history: seq<Event>)

  datatype Action =
    | Sample(t: nat, side: Side)
    | Start(t: nat, req: Request, sized: bool)
    | Advance(t: nat)
    | Register

  /** Fault stands for an access outside the storage, a negative count or a division by zero. */
  datatype Outcome = Disabled | Fault | Ran(m: Machine)

  const IDLE := Thread(Idle, Write([]), 0, 0, [], ForWrite, 0, false)

  /** A fresh ring of `cap` bytes, whatever they are, shared by the threads `ids`. */
  function Init(store: seq<byte>, ids: set<nat>): Machine {
    var ring := Buf(store, 0, 0, EMPTY);
    Machine(ring, None, map t | t in ids :: IDLE, [], ring, [], [])
  }

  // ---- steps ----

  function Put(m: Machine, t: nat, th: Thread): Machine {
    m.(threads := m.threads[t := th])
  }

  function SideOf(r: Request): Side {
    if r.Write? then ForWrite else ForRead
  }

  function Do(m: Machine, a: Action): Outcome {
    match a
    case Register =>
      Ran(m.(pipes := m.pipes + [[]], since := m.since + [Committed(m.history) - Unheard(m, |m.pipes|)]))
    case Sample(t, side) =>
      if t in m.threads && m.threads[t].phase.Idle?
      then Ran(Put(m, t, m.threads[t].(phase := Sampling(m.ring.state), side := side, budget := 0)))
      else Disabled
    case Start(t, req, sized) =>
      if t in m.threads && m.threads[t].phase.Idle? &&
         (sized ==> m.threads[t].side == SideOf(req) && Size(req) <= m.threads[t].budget)
      then
        var budget := if sized then m.threads[t].budget else 0;
        Ran(Put(m, t, m.threads[t].(phase := Called, req := req, sized := sized, budget := budget))
             .(history := m.history + [Invoke(t, req)]))
      else Disabled
    case Advance(t) =>
      if t in m.threads then Step(m, t, m.threads[t]) else Disabled
  }

  /** The next step of thread `t`, whose locals are `th`. */
  function Step(m: Machine, t: nat, th: Thread): Outcome {
    match th.phase
    case Idle => Disabled
    case Sampling(seen) => StepSample(m, t, th, seen)
    case Called =>
      if Size(th.req) == 0 then
        Ran(Put(m, t, th.(phase := Idle))
             .(history := m.history + [Return(t, Response(0, []))]))
      else if m.holder.None? then
        Ran(Put(m, t, th.(phase := Locked, out := [])).(holder := Some(t), base := m.ring))
      else Disabled
    case Locked => StepClamp(m, t, th)
    case Clamped => StepMeasure(m, t, th)
    case Measured => StepFirstCopy(m, t, th)
    case FirstCopied => StepSecondCopy(m, t, th)
    case SecondCopied => StepMove(m, t, th)
    case Moved =>
      Ran(Put(m, t, th.(phase := Waking(0)))
           .(ring := SetState(m.ring, if th.req.Write? then WriteMode else ReadMode)))
    case Waking(next) => StepWake(m, t, th, next)
    case Woken => Ran(Put(m, t, th.(phase := Released)).(holder := None))
    case Released =>
      Ran(Put(m, t, th.(phase := Idle))
           .(history := m.history + [Return(t, Response(th.n, th.out))]))
  }

  /** The rest of `buffer_n_write_bytes` or `buffer_n_read_bytes`, after the state field was loaded. */
  function StepSample(m: Machine, t: nat, th: Thread, seen: State): Outcome {
    var b := m.ring.(state := seen);
    if seen.NORMAL? && |m.ring.store| == 0 then Fault
    else Ran(Put(m, t, th.(phase := Idle, budget := if th.side.ForWrite? then NWriteBytes(b) else NReadBytes(b))))
  }

  function StepClamp(m: Machine, t: nat, th: Thread): Outcome {
    if m.ring.state.NORMAL? && |m.ring.store| == 0 then Fault
    else
      var n := Min(Size(th.req), if th.req.Write? then NWriteBytes(m.ring) else NReadBytes(m.ring));
      if n < 0 then Fault else Ran(Put(m, t, th.(phase := Clamped, n := n)))
  }

  function StepMeasure(m: Machine, t: nat, th: Thread): Outcome {
    var lin := if th.req.Write? then LinearWriteBytes(m.ring) else LinearReadBytes(m.ring);
    if lin < 0 then Fault else Ran(Put(m, t, th.(phase := Measured, lin := lin)))
  }

  function StepFirstCopy(m: Machine, t: nat, th: Thread): Outcome {
    match th.req
    case Write(data) =>
      if th.n <= |data| && m.ring.wpos + Min(th.n, th.lin) <= |m.ring.store|
      then Ran(Put(m, t, th.(phase := FirstCopied)).(ring := CopyInFirst(m.ring, data, th.n, th.lin)))
      else Fault
    case Read(_, keep) =>
      if !keep then Ran(Put(m, t, th.(phase := FirstCopied)))
      else if m.ring.rpos + Min(th.n, th.lin) <= |m.ring.store|
      then Ran(Put(m, t, th.(phase := FirstCopied, out := FirstStretch(m.ring.store, m.ring.rpos, th.n, th.lin))))
      else Fault
  }

  function StepSecondCopy(m: Machine, t: nat, th: Thread): Outcome {
    match th.req
    case Write(data) =>
      if th.n <= |data| && th.n - th.lin <= |m.ring.store|
      then Ran(Put(m, t, th.(phase := SecondCopied)).(ring := CopyInSecond(m.ring, data, th.n, th.lin)))
      else Fault
    case Read(_, keep) =>
      if !keep then Ran(Put(m, t, th.(phase := SecondCopied)))
      else if th.n - th.lin <= |m.ring.store|
      then Ran(Put(m, t, th.(phase := SecondCopied, out := th.out + SecondStretch(m.ring.store, th.n, th.lin))))
      else Fault
  }

  /** Moving the pointer is the moment the call takes effect. */
  function StepMove(m: Machine, t: nat, th: Thread): Outcome {
    Ran(Put(m, t, th.(phase := Moved, budget := if th.sized then th.budget - Size(th.req) else th.budget))
         .(ring := if th.req.Write? then MoveWrite(m.ring, th.n, th.lin) else MoveRead(m.ring, th.n, th.lin),
           history := m.history + [Commit(t, th.req, Response(th.n, th.out))]))
  }

  function StepWake(m: Machine, t: nat, th: Thread, next: nat): Outcome {
    if next >= |m.pipes| then Ran(Put(m, t, th.(phase := Woken)))
    else if m.ring.state.NORMAL? && |m.ring.store| == 0 then Fault
    else if NReadBytes(m.ring) < 0 || NWriteBytes(m.ring) < 0 then Fault
    else
      var record := IoRecord(WRITE, th.n, NReadBytes(m.ring), NWriteBytes(m.ring));
      Ran(Put(m, t, th.(phase := Waking(next + 1))).(pipes := m.pipes[next := m.pipes[next] + [record]]))
  }

  /** A run: the machine after the given schedule. */
  function Exec(m: Machine, schedule: seq<Action>): Outcome {
    if schedule == [] then Ran(m)
    else
      var before := Exec(m, schedule[..|schedule| - 1]);
      if before.Ran? then Do(before.m, schedule[|schedule| - 1]) else before
  }

  // ---- reading a history ----

  function Requests(h: seq<Event>): seq<Request> {
    if h == [] then []
    else
      var e := h[|h| - 1];
      Requests(h[..|h| - 1]) + if e.Commit? then [e.req] else []
  }

  function Responses(h: seq<Event>): (rs: seq<Response>)
    ensures |rs| == |Requests(h)|
  {
    if h == [] then []
    else
      var e := h[|h| - 1];
      Responses(h[..|h| - 1]) + if e.Commit? then [e.resp] else []
  }

  function Committed(h: seq<Event>): nat {
    |Requests(h)|
  }

  /** The queue that the calls which have taken effect leave behind. */
  function QueueAfter(cap: nat, h: seq<Event>): (q: seq<byte>)
    ensures |q| <= cap
  {
    RunFifo(cap, [], Requests(h)).queue
  }

  /** What an event registered from the start must have been told. */
  function Records(cap: nat, h: seq<Event>): (rs: seq<IoRecord>)
    ensures |rs| == Committed(h)
  {
    if h == [] then []
    else
      var e := h[|h| - 1];
      var q := QueueAfter(cap, h);
      Records(cap, h[..|h| - 1]) + if e.Commit? then [IoRecord(WRITE, e.resp.count, |q|, cap - |q|)] else []
  }

  /** A thread's calls as seen from outside: each is invoked, takes effect once, and returns what it took
      effect with.  A call for no bytes may return without taking effect. */
  datatype Status = Outside | Pending(req: Request) | Answered(req: Request, resp: Response) | Broken

  function Scan(h: seq<Event>, t: nat): Status {
    if h == [] then Outside
    else
      var e := h[|h| - 1];
      var before := Scan(h[..|h| - 1], t);
      if e.thread != t then before
      else match e
        case Invoke(_, req) => if before.Outside? then Pending(req) else Broken
        case Commit(_, req, resp) => if before == Pending(req) then Answered(req, resp) else Broken
        case Return(_, resp) =>
          if before.Answered? && before.resp == resp then Outside
          else if before.Pending? && Size(before.req) == 0 && resp == Response(0, []) then Outside
          else Broken
  }

  /** The history is explained by one sequential order of bounded-queue operations, that of the moments the
      calls take effect, each between its call and its return. */
  ghost predicate Linearizable(cap: nat, h: seq<Event>) {
    && Responses(h) == RunFifo(cap, [], Requests(h)).responses
    && forall t :: !Scan(h, t).Broken?
  }

  // ---- what holds between steps ----

  predicate HoldsMutex(p: Phase) {
    p.Locked? || p.Clamped? || p.Measured? || p.FirstCopied? || p.SecondCopied? || p.Moved? || p.Waking? || p.Woken?
  }

  /** Whether a thread has yet to report its call to the event at `k`. */
  predicate Pends(p: Phase, k: nat) {
    p.Moved? || (p.Waking? && p.next <= k)
  }

  /** 1 if the call that has taken effect last has yet to be reported to the event at `k`. */
  function Unheard(m: Machine, k: nat): nat {
    if m.holder.Some? && m.holder.value in m.threads then
      var p := m.threads[m.holder.value].phase;
      if Pends(p, k) then Min(1, Committed(m.history)) else 0
    else 0
  }

  function StatusOf(th: Thread): Status {
    match th.phase
    case Idle => Outside
    case Sampling(_) => Outside
    case Moved => Answered(th.req, Response(th.n, th.out))
    case Waking(_) => Answered(th.req, Response(th.n, th.out))
    case Woken => Answered(th.req, Response(th.n, th.out))
    case Released => Answered(th.req, Response(th.n, th.out))
    case _ => Pending(th.req)
  }

  ghost predicate MutexInv(m: Machine) {
    && (m.holder.Some? ==> m.holder.value in m.threads)
    && forall t :: t in m.threads ==> (HoldsMutex(m.threads[t].phase) <==> m.holder == Some(t))
  }

  /** What the holder of the mutex, in phase after phase, has made of the ring it found. */
  ghost predicate HolderInv(ring: Buf, base: Buf, q: seq<byte>, th: Thread) {
    && Valid(base) && Size(th.req) > 0 && |ring.store| == |base.store| && |Queue(base)| <= |base.store|
    && (!th.phase.Locked? ==> th.n == Clamp(base, th.req))
    && (!th.phase.Locked? && !th.phase.Clamped? ==> th.lin == Linear(base, th.req))
    && match th.phase
       case Moved => ring == AfterMove(base, th.req) && th.out == Delivered(base, th.req)
                     && q == Next(|base.store|, Queue(base), th.req)
       case Waking(_) => ring == After(base, th.req) && th.out == Delivered(base, th.req)
                     && q == Next(|base.store|, Queue(base), th.req)
       case Woken => ring == After(base, th.req) && th.out == Delivered(base, th.req)
                     && q == Next(|base.store|, Queue(base), th.req)
       case SecondCopied => ring == AfterSecond(base, th.req) && th.out == Delivered(base, th.req) && q == Queue(base)
       case FirstCopied => ring == AfterFirst(base, th.req) && th.out == DeliveredFirst(base, th.req)
                     && q == Queue(base)
       case _ => ring == base && th.out == [] && q == Queue(base)
  }

  ghost predicate RingInv(m: Machine)
    requires MutexInv(m)
  {
    var q := QueueAfter(|m.ring.store|, m.history);
    if m.holder.None? then Valid(m.ring) && q == Queue(m.ring)
    else HolderInv(m.ring, m.base, q, m.threads[m.holder.value])
  }

  ghost predicate HistoryInv(m: Machine) {
    && Responses(m.history) == RunFifo(|m.ring.store|, [], Requests(m.history)).responses
    && forall t :: Scan(m.history, t) == if t in m.threads then StatusOf(m.threads[t]) else Outside
  }

  /** Each event has been told of the calls since its registration, in the order they took effect. */
  ghost predicate PipesInv(m: Machine) {
    var records := Records(|m.ring.store|, m.history);
    && |m.since| == |m.pipes|
    && (forall k :: 0 <= k < |m.pipes| ==> PipeInv(m.pipes[k], m.since[k], |records| - Unheard(m, k), records))
    && (m.holder.Some? && m.holder.value in m.threads ==>
          LastRecordInv(records, |m.ring.store|, QueueAfter(|m.ring.store|, m.history), m.threads[m.holder.value]))
  }

  ghost predicate PipeInv(pipe: seq<IoRecord>, from: nat, to: nat, records: seq<IoRecord>) {
    from <= to <= |records| && pipe == records[from..to]
  }

  /** While a call is being reported it is the last to have taken effect. */
  ghost predicate LastRecordInv(records: seq<IoRecord>, cap: nat, q: seq<byte>, th: Thread) {
    th.phase.Moved? || th.phase.Waking? ==>
      |q| <= cap && |records| > 0 && records[|records| - 1] == IoRecord(WRITE, th.n, |q|, cap - |q|)
  }

  /** A NORMAL state is only ever seen in a ring that has storage. */
  ghost predicate SampleInv(m: Machine) {
    forall t :: t in m.threads && m.threads[t].phase == Sampling(NORMAL) ==> |m.ring.store| > 0
  }

  ghost predicate Inv(m: Machine) {
    MutexInv(m) && RingInv(m) && HistoryInv(m) && PipesInv(m) && SampleInv(m)
  }

  // ---- every step keeps it ----

  /** A change of a thread's locals that no history, mutex or pipe shows. */
  ghost predicate Quiet(th: Thread, th': Thread) {
    && (HoldsMutex(th'.phase) <==> HoldsMutex(th.phase))
    && StatusOf(th') == StatusOf(th)
    && (forall k :: Pends(th'.phase, k) == Pends(th.phase, k))
    && (th'.phase.Moved? || th'.phase.Waking? ==> (th.phase.Moved? || th.phase.Waking?) && th'.n == th.n)
  }

  /** A step that neither changes the history nor reports, nor takes or gives back the mutex. */
  lemma QuietStep(m: Machine, t: nat, th: Thread, ring: Buf)
    requires Inv(m) && t in m.threads && |ring.store| == |m.ring.store|
    requires Quiet(m.threads[t], th)
    requires m.holder == Some(t) ==> HolderInv(ring, m.base, QueueAfter(|ring.store|, m.history), th)
    requires m.holder != Some(t) ==> ring == m.ring
    requires th.phase == Sampling(NORMAL) ==> |ring.store| > 0
    ensures Inv(Put(m, t, th).(ring := ring))
  {
    hide RunFifo, Records, Scan, Requests, Responses, HolderInv, Valid, Queue, Quiet, StatusOf, HistoryInv, PipesInv;
    QuietForMutex(m, t, th, ring);
    QuietForPipes(m, t, th, ring);
  }

  lemma QuietForMutex(m: Machine, t: nat, th: Thread, ring: Buf)
    requires MutexInv(m) && HistoryInv(m) && t in m.threads && |ring.store| == |m.ring.store|
    requires Quiet(m.threads[t], th)
    ensures MutexInv(Put(m, t, th).(ring := ring)) && HistoryInv(Put(m, t, th).(ring := ring))
  {
    hide RunFifo, Records, Scan, Requests, Responses;
  }

  lemma QuietForPipes(m: Machine, t: nat, th: Thread, ring: Buf)
    requires MutexInv(m) && PipesInv(m) && t in m.threads && |ring.store| == |m.ring.store|
    requires Quiet(m.threads[t], th)
    ensures PipesInv(Put(m, t, th).(ring := ring))
  {
    hide RunFifo, Records, Scan, Requests, Responses;
    var m' := Put(m, t, th).(ring := ring);
    assert forall k :: Unheard(m', k) == Unheard(m, k);
  }

  lemma NormalNeedsStorage(m: Machine)
    requires Inv(m)
    ensures m.ring.state.NORMAL? ==> |m.ring.store| > 0
  {
    hide RunFifo, Records, Requests, Responses, Scan;
    if m.holder.Some? {
      HolderNormalNeedsStorage(m.ring, m.base, QueueAfter(|m.ring.store|, m.history), m.threads[m.holder.value]);
    }
  }

  lemma HolderNormalNeedsStorage(ring: Buf, base: Buf, q: seq<byte>, th: Thread)
    requires HolderInv(ring, base, q, th) && HoldsMutex(th.phase)
    ensures ring.state.NORMAL? ==> |ring.store| > 0
  {
    hide Valid, Queue, After, AfterMove, AfterSecond, AfterFirst, Delivered, DeliveredFirst, Clamp, Linear;
    StateDuringCall(base, th.req);
  }

  /** Taking a count without the mutex. */
  lemma SampleKeepsInv(m: Machine, t: nat, side: Side)
    requires Inv(m)
    ensures !Do(m, Sample(t, side)).Fault?
    ensures Do(m, Sample(t, side)).Ran? ==> Inv(Do(m, Sample(t, side)).m)
  {
    hide RunFifo, Records, Scan, Requests, Responses, After, AfterMove, AfterSecond, AfterFirst, Delivered;
    hide DeliveredFirst, Clamp, Linear, Valid, Queue;
    if t in m.threads && m.threads[t].phase.Idle? {
      NormalNeedsStorage(m);
      QuietStep(m, t, m.threads[t].(phase := Sampling(m.ring.state), side := side, budget := 0), m.ring);
    }
  }

  /** The next step stays inside the storage and does to the ring what the phase after it says. */
  ghost predicate StepsWithin(m: Machine, t: nat, th: Thread, q: seq<byte>) {
    && Step(m, t, th).Ran?
    && var m' := Step(m, t, th).m;
       t in m'.threads && m' == Put(m, t, m'.threads[t]).(ring := m'.ring) && Quiet(th, m'.threads[t])
       && |m'.ring.store| == |m.ring.store| && HolderInv(m'.ring, m.base, q, m'.threads[t])
  }

  lemma ClampStep(m: Machine, t: nat, th: Thread, q: seq<byte>)
    requires t in m.threads && th == m.threads[t] && HolderInv(m.ring, m.base, q, th) && th.phase.Locked?
    ensures StepsWithin(m, t, th, q)
  {
    CountsAgree(m.base);
  }

  lemma MeasureStep(m: Machine, t: nat, th: Thread, q: seq<byte>)
    requires t in m.threads && th == m.threads[t] && HolderInv(m.ring, m.base, q, th) && th.phase.Clamped?
    ensures StepsWithin(m, t, th, q)
  {
    CountsAgree(m.base);
  }

  lemma FirstCopyStep(m: Machine, t: nat, th: Thread, q: seq<byte>)
    requires t in m.threads && th == m.threads[t] && HolderInv(m.ring, m.base, q, th) && th.phase.Measured?
    ensures StepsWithin(m, t, th, q)
  {
    hide Queue, NWriteBytes, NReadBytes, Clamp, Linear, Valid, AfterSecond, AfterMove, After, Delivered;
    CopiesStayInside(m.base, th.req);
  }

  lemma SecondCopyStep(m: Machine, t: nat, th: Thread, q: seq<byte>)
    requires t in m.threads && th == m.threads[t] && HolderInv(m.ring, m.base, q, th) && th.phase.FirstCopied?
    ensures StepsWithin(m, t, th, q)
  {
    hide Queue, NWriteBytes, NReadBytes, Clamp, Linear, Valid, AfterMove, After;
    CopiesStayInside(m.base, th.req);
  }

  lemma SettleStep(m: Machine, t: nat, th: Thread, q: seq<byte>)
    requires t in m.threads && th == m.threads[t] && HolderInv(m.ring, m.base, q, th) && th.phase.Moved?
    ensures StepsWithin(m, t, th, q)
  {
    CountsAgree(m.base);
  }

  lemma HolderStepKeepsInv(m: Machine, t: nat)
    requires Inv(m) && t in m.threads
    requires var p := m.threads[t].phase;
             p.Locked? || p.Clamped? || p.Measured? || p.FirstCopied? || p.Moved?
    ensures Do(m, Advance(t)).Ran? && Inv(Do(m, Advance(t)).m)
  {
    hide RunFifo, Records, Scan, Requests, Responses, After, AfterMove, AfterSecond, AfterFirst, Delivered;
    hide DeliveredFirst, Clamp, Linear, Valid, Queue;
    var th := m.threads[t];
    var q := QueueAfter(|m.ring.store|, m.history);
    match th.phase {
      case Locked => ClampStep(m, t, th, q);
      case Clamped => MeasureStep(m, t, th, q);
      case Measured => FirstCopyStep(m, t, th, q);
      case FirstCopied => SecondCopyStep(m, t, th, q);
      case Moved => SettleStep(m, t, th, q);
    }
    var m' := Step(m, t, th).m;
    QuietStep(m, t, m'.threads[t], m'.ring);
  }

  lemma Appended(h: seq<Event>, e: Event, t: nat)
    ensures Requests(h + [e]) == Requests(h) + (if e.Commit? then [e.req] else [])
    ensures Responses(h + [e]) == Responses(h) + (if e.Commit? then [e.resp] else [])
    ensures e.thread != t ==> Scan(h + [e], t) == Scan(h, t)
  {
    assert (h + [e])[..|h|] == h;
  }

  lemma AppendedQuietly(cap: nat, h: seq<Event>, e: Event)
    requires !e.Commit?
    ensures Requests(h + [e]) == Requests(h) && Responses(h + [e]) == Responses(h)
    ensures Records(cap, h + [e]) == Records(cap, h)
  {
    assert (h + [e])[..|h|] == h;
  }

  /** A call or a return: the thread does not hold the mutex before or after. */
  lemma OutsideStep(m: Machine, t: nat, th: Thread, e: Event)
    requires Inv(m) && t in m.threads && !HoldsMutex(m.threads[t].phase) && !HoldsMutex(th.phase)
    requires !e.Commit? && e.thread == t && Scan(m.history + [e], t) == StatusOf(th) && !th.phase.Sampling?
    ensures Inv(Put(m, t, th).(history := m.history + [e]))
  {
    hide RunFifo, Records, Scan, Requests, Responses, HolderInv, Valid, Queue, StatusOf, HoldsMutex;
    AppendedQuietly(|m.ring.store|, m.history, e);
    OutsideForHistory(m, t, th, e);
    OutsideForPipes(m, t, th, e);
  }

  lemma OutsideForHistory(m: Machine, t: nat, th: Thread, e: Event)
    requires HistoryInv(m) && t in m.threads && !e.Commit? && e.thread == t
    requires Scan(m.history + [e], t) == StatusOf(th)
    ensures HistoryInv(Put(m, t, th).(history := m.history + [e]))
  {
    hide RunFifo, Records, Scan, Requests, Responses, StatusOf;
    AppendedQuietly(|m.ring.store|, m.history, e);
    forall u {
      Appended(m.history, e, u);
    }
  }

  lemma OutsideForPipes(m: Machine, t: nat, th: Thread, e: Event)
    requires MutexInv(m) && PipesInv(m) && t in m.threads && !e.Commit?
    requires !HoldsMutex(m.threads[t].phase) && !HoldsMutex(th.phase)
    ensures PipesInv(Put(m, t, th).(history := m.history + [e]))
  {
    hide RunFifo, Records, Requests, PipeInv, LastRecordInv, Pends;
    AppendedQuietly(|m.ring.store|, m.history, e);
    var m' := Put(m, t, th).(history := m.history + [e]);
    assert m.holder != Some(t);
    SameReporter(m, m');
  }

  /** Nothing changes for the pipes as long as the thread that reports and what it reports stay the same. */
  lemma SameReporter(m: Machine, m': Machine)
    requires MutexInv(m) && PipesInv(m)
    requires m'.pipes == m.pipes && m'.since == m.since && m'.holder == m.holder
    requires m.holder.Some? ==> m.holder.value in m'.threads &&
                                m'.threads[m.holder.value] == m.threads[m.holder.value]
    requires |m'.ring.store| == |m.ring.store| && Requests(m'.history) == Requests(m.history)
    requires Records(|m.ring.store|, m'.history) == Records(|m.ring.store|, m.history)
    ensures PipesInv(m')
  {
    hide RunFifo, Records, Requests, PipeInv, LastRecordInv, Pends;
    assert forall k :: Unheard(m', k) == Unheard(m, k);
  }

  lemma StartKeepsInv(m: Machine, t: nat, req: Request, sized: bool)
    requires Inv(m)
    ensures !Do(m, Start(t, req, sized)).Fault?
    ensures Do(m, Start(t, req, sized)).Ran? ==> Inv(Do(m, Start(t, req, sized)).m)
  {
    hide RunFifo, Records, Requests, Responses, After, AfterMove, AfterSecond, AfterFirst, Delivered;
    hide DeliveredFirst, Clamp, Linear, Valid, Queue;
    var o := Do(m, Start(t, req, sized));
    if o.Ran? {
      var e := Invoke(t, req);
      assert (m.history + [e])[..|m.history|] == m.history;
      OutsideStep(m, t, o.m.threads[t], e);
    }
  }

  lemma ReturnKeepsInv(m: Machine, t: nat)
    requires Inv(m) && t in m.threads
    requires m.threads[t].phase.Released? || (m.threads[t].phase.Called? && Size(m.threads[t].req) == 0)
    ensures Do(m, Advance(t)).Ran? && Inv(Do(m, Advance(t)).m)
  {
    hide RunFifo, Records, Requests, Responses, After, AfterMove, AfterSecond, AfterFirst, Delivered;
    hide DeliveredFirst, Clamp, Linear, Valid, Queue;
    var th := m.threads[t];
    var resp := if th.phase.Released? then Response(th.n, th.out) else Response(0, []);
    var e := Return(t, resp);
    assert (m.history + [e])[..|m.history|] == m.history;
    OutsideStep(m, t, th.(phase := Idle), e);
  }

  /** Taking the mutex or giving it back changes what the threads may do, but no history and no pipe. */
  lemma HandOver(m: Machine, t: nat, th: Thread, holder: Option<nat>, base: Buf)
    requires MutexInv(m) && HistoryInv(m) && PipesInv(m) && t in m.threads
    requires StatusOf(th) == StatusOf(m.threads[t])
    requires !th.phase.Moved? && !th.phase.Waking? && !m.threads[t].phase.Moved? && !m.threads[t].phase.Waking?
    requires if holder.Some? then holder == Some(t) && m.holder.None? && HoldsMutex(th.phase)
             else m.holder == Some(t) && !HoldsMutex(th.phase)
    ensures var m' := Put(m, t, th).(holder := holder, base := base);
            MutexInv(m') && HistoryInv(m') && PipesInv(m')
  {
    hide RunFifo, Records, Scan, Requests, Responses;
    var m' := Put(m, t, th).(holder := holder, base := base);
    assert forall k :: Unheard(m', k) == 0 == Unheard(m, k);
  }

  lemma LockKeepsInv(m: Machine, t: nat)
    requires Inv(m) && t in m.threads && m.threads[t].phase.Called? && Size(m.threads[t].req) > 0
    ensures !Do(m, Advance(t)).Fault?
    ensures Do(m, Advance(t)).Ran? ==> Inv(Do(m, Advance(t)).m)
  {
    hide RunFifo, Records, Scan, Requests, Responses;
    if m.holder.None? {
      HandOver(m, t, m.threads[t].(phase := Locked, out := []), Some(t), m.ring);
      CountsAgree(m.ring);
    }
  }

  lemma UnlockKeepsInv(m: Machine, t: nat)
    requires Inv(m) && t in m.threads && m.threads[t].phase.Woken?
    ensures Do(m, Advance(t)).Ran? && Inv(Do(m, Advance(t)).m)
  {
    hide RunFifo, Records, Scan, Requests, Responses, HolderInv, Valid, Queue;
    var q := QueueAfter(|m.ring.store|, m.history);
    HandOver(m, t, m.threads[t].(phase := Released), None, m.base);
    HolderLeavesSettled(m.ring, m.base, q, m.threads[t]);
  }

  /** What the next holder of the mutex finds: wrapped pointers, an up-to-date state, the new queue. */
  lemma HolderLeavesSettled(ring: Buf, base: Buf, q: seq<byte>, th: Thread)
    requires HolderInv(ring, base, q, th) && th.phase.Woken?
    ensures Valid(ring) && q == Queue(ring)
  {
    hide AfterMove, AfterSecond, AfterFirst, Delivered, DeliveredFirst, Clamp, Linear, Valid, Queue, Next;
    AfterIsNext(ring, base, th.req);
  }

  lemma AfterIsNext(ring: Buf, base: Buf, r: Request)
    requires Valid(base) && Size(r) > 0 && ring == After(base, r)
    ensures |Queue(base)| <= |base.store| && Valid(ring) && Queue(ring) == Next(|base.store|, Queue(base), r)
  {
    CallRefinesFifo(base, r);
  }

  /** The call takes effect: the responses so far are those of the bounded queue, this one included. */
  lemma CommitExtendsRun(cap: nat, h: seq<Event>, q: seq<byte>, e: Event)
    requires e.Commit? && q == QueueAfter(cap, h) && e.resp == Answer(cap, q, e.req)
    requires Responses(h) == RunFifo(cap, [], Requests(h)).responses
    ensures Responses(h + [e]) == RunFifo(cap, [], Requests(h + [e])).responses
    ensures QueueAfter(cap, h + [e]) == Next(cap, q, e.req)
    ensures Records(cap, h + [e]) ==
            Records(cap, h) + [IoRecord(WRITE, e.resp.count, |Next(cap, q, e.req)|, cap - |Next(cap, q, e.req)|)]
  {
    hide RunFifo, Requests, Responses;
    Appended(h, e, e.thread);
    RunSnoc(cap, [], Requests(h), e.req);
    assert (h + [e])[..|h|] == h;
  }

  lemma CommitKeepsPipes(m: Machine, m': Machine, t: nat, record: IoRecord)
    requires MutexInv(m) && PipesInv(m) && m.holder == Some(t) && m.threads[t].phase.SecondCopied?
    requires m'.holder == m.holder && t in m'.threads && m'.threads[t].phase.Moved?
    requires m'.pipes == m.pipes && m'.since == m.since && |m'.ring.store| == |m.ring.store|
    requires Records(|m.ring.store|, m'.history) == Records(|m.ring.store|, m.history) + [record]
    requires var q := QueueAfter(|m.ring.store|, m'.history);
             record == IoRecord(WRITE, m'.threads[t].n, |q|, |m.ring.store| - |q|)
    ensures PipesInv(m')
  {
    hide RunFifo, Records, Scan, Requests, Responses;
    var before, after := Records(|m.ring.store|, m.history), Records(|m.ring.store|, m'.history);
    assert forall k :: Unheard(m, k) == 0 && Unheard(m', k) == 1;
    forall k | 0 <= k < |m.pipes|
      ensures PipeInv(m'.pipes[k], m'.since[k], |after| - Unheard(m', k), after)
    {
      assert PipeInv(m.pipes[k], m.since[k], |before| - Unheard(m, k), before);
      assert before[m.since[k]..] == after[m.since[k]..|after| - 1];
    }
  }

  /** Moving the pointer, on the ring. */
  lemma MoveStep(ring: Buf, base: Buf, q: seq<byte>, th: Thread, th': Thread)
    requires HolderInv(ring, base, q, th) && th.phase.SecondCopied?
    requires th' == th.(phase := Moved, budget := th'.budget)
    ensures HolderInv(if th.req.Write? then MoveWrite(ring, th.n, th.lin) else MoveRead(ring, th.n, th.lin),
                      base, Next(|base.store|, q, th.req), th')
    ensures Response(th.n, th.out) == Answer(|base.store|, q, th.req)
  {
    CallRefinesFifo(base, th.req);
  }

  lemma CommitKeepsInv(m: Machine, t: nat)
    requires Inv(m) && t in m.threads && m.threads[t].phase.SecondCopied?
    ensures Do(m, Advance(t)).Ran? && Inv(Do(m, Advance(t)).m)
  {
    hide RunFifo, Records, Scan, Requests, Responses, After, AfterMove, AfterSecond, AfterFirst, Delivered;
    hide DeliveredFirst, Clamp, Linear, Valid, Queue;
    var th := m.threads[t];
    var m' := Do(m, Advance(t)).m;
    var e := Commit(t, th.req, Response(th.n, th.out));
    var cap := |m.ring.store|;
    var q := QueueAfter(cap, m.history);
    MoveStep(m.ring, m.base, q, th, m'.threads[t]);
    CommitExtendsRun(cap, m.history, q, e);
    CommitKeepsPipes(m, m', t, IoRecord(WRITE, th.n, |Next(cap, q, th.req)|, cap - |Next(cap, q, th.req)|));
    CommitKeepsHistory(m, m', t, e);
  }

  lemma CommitKeepsHistory(m: Machine, m': Machine, t: nat, e: Event)
    requires HistoryInv(m) && t in m.threads && m.threads[t].phase.SecondCopied? && |m'.ring.store| == |m.ring.store|
    requires e == Commit(t, m.threads[t].req, Response(m.threads[t].n, m.threads[t].out))
    requires m'.history == m.history + [e] && t in m'.threads && m'.threads == m.threads[t := m'.threads[t]]
    requires m'.threads[t].phase.Moved? && m'.threads[t].req == e.req
    requires e.resp == Response(m'.threads[t].n, m'.threads[t].out)
    requires Responses(m'.history) == RunFifo(|m.ring.store|, [], Requests(m'.history)).responses
    ensures HistoryInv(m')
  {
    forall u
      ensures Scan(m'.history, u) == if u in m'.threads then StatusOf(m'.threads[u]) else Outside
    {
      Appended(m.history, e, u);
      assert (m.history + [e])[..|m.history|] == m.history;
    }
  }

  /** What the holder reports is what the last call to take effect left behind. */
  lemma ReportIsLastRecord(m: Machine, th: Thread, records: seq<IoRecord>, q: seq<byte>)
    requires HolderInv(m.ring, m.base, q, th) && th.phase.Waking? && |records| > 0
    requires |q| <= |m.ring.store| && records[|records| - 1] == IoRecord(WRITE, th.n, |q|, |m.ring.store| - |q|)
    ensures m.ring.state.NORMAL? ==> |m.ring.store| > 0
    ensures NReadBytes(m.ring) >= 0 && NWriteBytes(m.ring) >= 0
    ensures IoRecord(WRITE, th.n, NReadBytes(m.ring), NWriteBytes(m.ring)) == records[|records| - 1]
  {
    AfterIsNext(m.ring, m.base, th.req);
    CountsAgree(m.ring);
  }

  lemma ReportKeepsPipes(m: Machine, m': Machine, t: nat, record: IoRecord)
    requires MutexInv(m) && PipesInv(m) && m.holder == Some(t) && m.threads[t].phase.Waking?
    requires var records := Records(|m.ring.store|, m.history); |records| > 0 && record == records[|records| - 1]
    requires var next := m.threads[t].phase.next;
             next < |m.pipes| && m'.pipes == m.pipes[next := m.pipes[next] + [record]]
             && t in m'.threads && m'.threads[t] == m.threads[t].(phase := Waking(next + 1))
    requires m'.ring == m.ring && m'.history == m.history && m'.since == m.since && m'.holder == m.holder
    ensures PipesInv(m')
  {
    hide RunFifo, Records, Scan, Requests, Responses;
    var records := Records(|m.ring.store|, m.history);
    var next := m.threads[t].phase.next;
    forall k | 0 <= k < |m'.pipes|
      ensures PipeInv(m'.pipes[k], m'.since[k], |records| - Unheard(m', k), records)
    {
      assert PipeInv(m.pipes[k], m.since[k], |records| - Unheard(m, k), records);
      assert Unheard(m', k) == if k == next then 0 else Unheard(m, k);
    }
  }

  /** A report to one event. */
  lemma ReportKeepsInv(m: Machine, t: nat)
    requires Inv(m) && t in m.threads && m.threads[t].phase.Waking? && m.threads[t].phase.next < |m.pipes|
    ensures Do(m, Advance(t)).Ran? && Inv(Do(m, Advance(t)).m)
  {
    hide RunFifo, Records, Scan, Requests, Responses, HolderInv, Valid, Queue, NReadBytes, NWriteBytes, StatusOf;
    hide HistoryInv, PipeInv, Unheard;
    var th := m.threads[t];
    var records := Records(|m.ring.store|, m.history);
    assert m.holder == Some(t);
    ReportIsLastRecord(m, th, records, QueueAfter(|m.ring.store|, m.history));
    var m' := Do(m, Advance(t)).m;
    ReportKeepsPipes(m, m', t, records[|records| - 1]);
    ReportForMutex(m, t, m'.threads[t], m'.pipes);
  }

  lemma ReportForMutex(m: Machine, t: nat, th: Thread, pipes: seq<seq<IoRecord>>)
    requires MutexInv(m) && RingInv(m) && HistoryInv(m) && SampleInv(m) && m.holder == Some(t)
    requires m.threads[t].phase.Waking? && th == m.threads[t].(phase := th.phase)
    requires th.phase.Waking? || th.phase.Woken?
    ensures var m' := Put(m, t, th).(pipes := pipes);
            MutexInv(m') && RingInv(m') && HistoryInv(m') && SampleInv(m')
  {
    hide RunFifo, Records, Scan, Requests, Responses, HolderInv, Valid, Queue, HistoryInv;
    HolderKeepsReporting(m.ring, m.base, QueueAfter(|m.ring.store|, m.history), m.threads[t], th);
    ReportForHistory(m, t, th, pipes);
  }

  lemma ReportForHistory(m: Machine, t: nat, th: Thread, pipes: seq<seq<IoRecord>>)
    requires HistoryInv(m) && t in m.threads && m.threads[t].phase.Waking? && th == m.threads[t].(phase := th.phase)
    requires th.phase.Waking? || th.phase.Woken?
    ensures HistoryInv(Put(m, t, th).(pipes := pipes))
  {
    hide RunFifo, Scan, Requests, Responses;
  }

  lemma HolderKeepsReporting(ring: Buf, base: Buf, q: seq<byte>, th: Thread, th': Thread)
    requires HolderInv(ring, base, q, th) && th.phase.Waking?
    requires th' == th.(phase := th'.phase) && (th'.phase.Waking? || th'.phase.Woken?)
    ensures HolderInv(ring, base, q, th')
  {
    hide After, AfterMove, AfterSecond, AfterFirst, Delivered, DeliveredFirst, Clamp, Linear, Valid, Queue, Next;
  }

  /** The end of the reports. */
  lemma ReportsEndKeepsInv(m: Machine, t: nat)
    requires Inv(m) && t in m.threads && m.threads[t].phase.Waking? && |m.pipes| <= m.threads[t].phase.next
    ensures Do(m, Advance(t)).Ran? && Inv(Do(m, Advance(t)).m)
  {
    hide RunFifo, Records, Scan, Requests, Responses, HolderInv;
    var m' := Do(m, Advance(t)).m;
    ReportsEnd(m, m', t);
    ReportForMutex(m, t, m'.threads[t], m'.pipes);
  }

  lemma ReportsEnd(m: Machine, m': Machine, t: nat)
    requires MutexInv(m) && PipesInv(m) && m.holder == Some(t) && m.threads[t].phase.Waking?
    requires |m.pipes| <= m.threads[t].phase.next && m' == Put(m, t, m.threads[t].(phase := Woken))
    ensures PipesInv(m')
  {
    hide RunFifo, Records, Scan, Requests, Responses;
    assert forall k | 0 <= k < |m.pipes| :: Unheard(m', k) == 0 == Unheard(m, k);
  }

  lemma RegisterKeepsInv(m: Machine)
    requires Inv(m)
    ensures Do(m, Register).Ran? && Inv(Do(m, Register).m)
  {
    hide RunFifo, Records, Scan, Requests, Responses, After, AfterMove, AfterSecond, AfterFirst, Delivered;
    hide DeliveredFirst, Clamp, Linear, Valid, Queue;
    var m' := Do(m, Register).m;
    assert forall k :: Unheard(m', k) == Unheard(m, k);
    assert MutexInv(m') && HistoryInv(m');
    RegisterKeepsPipes(m, m');
  }

  lemma RegisterKeepsPipes(m: Machine, m': Machine)
    requires PipesInv(m) && Do(m, Register) == Ran(m')
    ensures PipesInv(m')
  {
    hide RunFifo, Records, Scan, Requests, Responses;
    var records := Records(|m.ring.store|, m.history);
    forall k | 0 <= k < |m'.pipes|
      ensures PipeInv(m'.pipes[k], m'.since[k], |records| - Unheard(m', k), records)
    {
      assert Unheard(m', k) == Unheard(m, k);
      if k < |m.pipes| {
        assert PipeInv(m.pipes[k], m.since[k], |records| - Unheard(m, k), records);
      }
    }
  }

  lemma StepKeepsInv(m: Machine, a: Action)
    requires Inv(m)
    ensures !Do(m, a).Fault?
    ensures Do(m, a).Ran? ==> Inv(Do(m, a).m)
  {
    hide Inv, Step;
    match a
    case Register => RegisterKeepsInv(m);
    case Sample(t, side) => SampleKeepsInv(m, t, side);
    case Start(t, req, sized) => StartKeepsInv(m, t, req, sized);
    case Advance(t) =>
      if t in m.threads {
        AdvanceKeepsInv(m, t);
      }
  }

  lemma AdvanceKeepsInv(m: Machine, t: nat)
    requires Inv(m) && t in m.threads
    ensures !Step(m, t, m.threads[t]).Fault?
    ensures Step(m, t, m.threads[t]).Ran? ==> Inv(Step(m, t, m.threads[t]).m)
  {
    hide Inv;
    var th := m.threads[t];
    match th.phase
    case Idle =>
    case Sampling(_) => SampleEndKeepsInv(m, t);
    case Called =>
      if Size(th.req) == 0 { ReturnKeepsInv(m, t); } else { LockKeepsInv(m, t); }
    case Waking(next) =>
      if next < |m.pipes| { ReportKeepsInv(m, t); } else { ReportsEndKeepsInv(m, t); }
    case Woken => UnlockKeepsInv(m, t);
    case Released => ReturnKeepsInv(m, t);
    case SecondCopied => CommitKeepsInv(m, t);
    case _ => HolderStepKeepsInv(m, t);
  }

  /** Loading the pointers of a count: a NORMAL state was only ever seen in a ring with storage. */
  lemma SampleEndKeepsInv(m: Machine, t: nat)
    requires Inv(m) && t in m.threads && m.threads[t].phase.Sampling?
    ensures Do(m, Advance(t)).Ran? && Inv(Do(m, Advance(t)).m)
  {
    hide RunFifo, Requests, Responses, Records, Scan, HolderInv, Valid, Queue, NWriteBytes, NReadBytes;
    var m' := Do(m, Advance(t)).m;
    assert m.holder != Some(t);
    QuietStep(m, t, m'.threads[t], m.ring);
  }

  lemma InitInv(store: seq<byte>, ids: set<nat>)
    ensures Inv(Init(store, ids))
  {
  }

  /** No schedule makes any thread leave the storage, and every state it reaches satisfies the invariant. */
  lemma {:induction false} EveryRunKeepsInv(store: seq<byte>, ids: set<nat>, schedule: seq<Action>)
    ensures !Exec(Init(store, ids), schedule).Fault?
    ensures Exec(Init(store, ids), schedule).Ran? ==> Inv(Exec(Init(store, ids), schedule).m)
  {
    if schedule == [] {
      InitInv(store, ids);
    } else {
      EveryRunKeepsInv(store, ids, schedule[..|schedule| - 1]);
      var before := Exec(Init(store, ids), schedule[..|schedule| - 1]);
      if before.Ran? {
        StepKeepsInv(before.m, schedule[|schedule| - 1]);
      }
    }
  }

  // ---- what follows for every schedule ----

  /** Safety: under no schedule does any thread copy outside the storage, compute a negative count or divide
      by zero. */
  lemma NoScheduleFaults(store: seq<byte>, ids: set<nat>, schedule: seq<Action>)
    ensures !Exec(Init(store, ids), schedule).Fault?
  {
    EveryRunKeepsInv(store, ids, schedule);
  }

  /** Linearizability: whatever the interleaving, the calls answer as if they had been served one at a time
      by the bounded queue, in the order in which they moved their pointers. */
  lemma EveryScheduleIsLinearizable(store: seq<byte>, ids: set<nat>, schedule: seq<Action>)
    requires Exec(Init(store, ids), schedule).Ran?
    ensures Linearizable(|store|, Exec(Init(store, ids), schedule).m.history)
  {
    EveryRunKeepsInv(store, ids, schedule);
    StorageKeepsLength(store, ids, schedule);
    var m := Exec(Init(store, ids), schedule).m;
    forall t
      ensures !Scan(m.history, t).Broken?
    {
      hide Scan, RunFifo, Requests, Responses;
    }
  }

  lemma {:induction false} StorageKeepsLength(store: seq<byte>, ids: set<nat>, schedule: seq<Action>)
    requires Exec(Init(store, ids), schedule).Ran?
    ensures |Exec(Init(store, ids), schedule).m.ring.store| == |store|
  {
    if schedule != [] {
      StorageKeepsLength(store, ids, schedule[..|schedule| - 1]);
      StepKeepsLength(Exec(Init(store, ids), schedule[..|schedule| - 1]).m, schedule[|schedule| - 1]);
    }
  }

  lemma StepKeepsLength(m: Machine, a: Action)
    requires Do(m, a).Ran?
    ensures |Do(m, a).m.ring.store| == |m.ring.store|
  {
  }

  /** Mutual exclusion with a settled ring: at most one thread is inside, and on entering it finds wrapped
      pointers, an up-to-date state field and the queue that the calls so far have left. */
  lemma EntersASettledRing(store: seq<byte>, ids: set<nat>, schedule: seq<Action>, t: nat)
    requires Exec(Init(store, ids), schedule).Ran?
    requires var m := Exec(Init(store, ids), schedule).m; t in m.threads && m.threads[t].phase.Locked?
    ensures var m := Exec(Init(store, ids), schedule).m;
            Valid(m.ring) && Queue(m.ring) == QueueAfter(|m.ring.store|, m.history)
    ensures var m := Exec(Init(store, ids), schedule).m;
            forall u :: u in m.threads && HoldsMutex(m.threads[u].phase) ==> u == t
  {
    hide RunFifo, Requests, Responses, Records, Scan, Queue, Valid;
    EveryRunKeepsInv(store, ids, schedule);
  }

  /** Each call takes effect after it is made and before it returns, with the answer it returns; so a call
      that returns before another is made also takes effect before it. */
  lemma TakesEffectBetween(h: seq<Event>, t: nat, j: nat) returns (k: nat, i: nat)
    requires !Scan(h, t).Broken? && j < |h| && h[j].Return? && h[j].thread == t
    ensures k < j && h[k].Invoke? && h[k].thread == t
    ensures if Size(h[k].req) == 0 && (forall l :: k < l < j ==> h[l].thread != t)
            then h[j].resp == Response(0, [])
            else k < i < j && h[i] == Commit(t, h[k].req, h[j].resp)
                 && forall l :: k < l < j && l != i ==> h[l].thread != t
  {
    BrokenStays(h, t, j + 1);
    var upto := h[..j + 1];
    assert upto[..j] == h[..j];
    i := 0;
    if Scan(h[..j], t).Pending? {
      k := PendingSince(h[..j], t);
    } else {
      k, i := AnsweredSince(h[..j], t);
    }
  }

  lemma {:induction false} BrokenStays(h: seq<Event>, t: nat, j: nat)
    requires !Scan(h, t).Broken? && j <= |h|
    ensures !Scan(h[..j], t).Broken?
  {
    if j == |h| {
      assert h[..j] == h;
    } else {
      BrokenStays(h[..|h| - 1], t, j);
      assert h[..|h| - 1][..j] == h[..j];
    }
  }

  lemma {:induction false} PendingSince(h: seq<Event>, t: nat) returns (k: nat)
    requires Scan(h, t).Pending?
    ensures k < |h| && h[k] == Invoke(t, Scan(h, t).req) && forall l :: k < l < |h| ==> h[l].thread != t
  {
    k := |h| - 1;
    if h[k].thread != t {
      k := PendingSince(h[..|h| - 1], t);
    }
  }

  lemma {:induction false} AnsweredSince(h: seq<Event>, t: nat) returns (k: nat, i: nat)
    requires Scan(h, t).Answered?
    ensures k < i < |h| && h[k] == Invoke(t, Scan(h, t).req)
    ensures h[i] == Commit(t, Scan(h, t).req, Scan(h, t).resp)
    ensures forall l :: k < l < |h| && l != i ==> h[l].thread != t
  {
    i := |h| - 1;
    if h[i].thread != t {
      k, i := AnsweredSince(h[..|h| - 1], t);
    } else {
      k := PendingSince(h[..|h| - 1], t);
    }
  }

  /** Each record tells the bytes its call moved and the state of the queue just after it; readable and
      writeable bytes add up to the length. */
  lemma {:induction false} RecordTellsItsCall(cap: nat, h: seq<Event>, i: nat)
    requires i < Committed(h)
    ensures var q := RunFifo(cap, [], Requests(h)[..i + 1]).queue;
            Records(cap, h)[i] == IoRecord(WRITE, Responses(h)[i].count, |q|, cap - |q|)
  {
    var before := h[..|h| - 1];
    if i < Committed(before) {
      RecordTellsItsCall(cap, before, i);
      assert Requests(h)[..i + 1] == Requests(before)[..i + 1];
    } else {
      assert Requests(h)[..i + 1] == Requests(h);
    }
  }
}
