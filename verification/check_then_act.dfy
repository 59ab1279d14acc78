/** Callers that first take a count without the mutex and then call for at most that many bytes: the Python
    methods `write` and `read` (src/python/hiemal/_c/src/buffer.c) and the PulseAudio read loop
    (src/core/pulse.c).  With one writing and one reading thread, a count taken without the mutex, in the
    middle of whatever the other thread is doing, stays good until the caller itself uses it up. */
module CheckThenAct {
  import opened Bytes
  import opened Fifo
  import opened Ring
  import opened Concurrent

  /** Only `p` writes and only `c` reads. */
  predicate Roles(schedule: seq<Action>, p: nat, c: nat) {
    forall a :: a in schedule && a.Start? ==> a.t == if a.req.Write? then p else c
  }

  function Free(m: Machine): int {
    |m.ring.store| - |QueueAfter(|m.ring.store|, m.history)|
  }

  function Used(m: Machine): int {
    |QueueAfter(|m.ring.store|, m.history)|
  }

  predicate InCall(p: Phase) {
    !p.Idle? && !p.Sampling?
  }

  predicate HasMoved(p: Phase) {
    p.Moved? || p.Waking? || p.Woken? || p.Released?
  }

  /** What the writer may rely on: a state it has seen EMPTY stays empty, and what is left of its count is
      still free; the reader likewise. */
  ghost predicate Reliance(m: Machine, th: Thread) {
    var room := if th.side.ForWrite? then Free(m) else Used(m);
    && (th.phase == Sampling(EMPTY) && th.side.ForWrite? ==> Free(m) == |m.ring.store|)
    && (th.phase == Sampling(FULL) && th.side.ForRead? ==> Used(m) == |m.ring.store|)
    && (th.phase == Sampling(NORMAL) && th.side.ForRead? ==> Used(m) > 0)
    && (!th.phase.Sampling? ==> th.budget <= room)
  }

  /** A call sized by a count: until it takes effect it asks for no more than is left of the count, and
      from then on it has moved all it asked for.  Any other call has given up the count before. */
  ghost predicate SizedCall(th: Thread) {
    InCall(th.phase) ==>
      if !th.sized then th.budget <= 0
      else if HasMoved(th.phase) then th.n == Size(th.req)
      else th.side == SideOf(th.req) && Size(th.req) <= th.budget
  }

  ghost predicate RoleInv(m: Machine, p: nat, c: nat) {
    && (forall t :: t in m.threads && InCall(m.threads[t].phase) ==>
                      t == if m.threads[t].req.Write? then p else c)
    && (p in m.threads && m.threads[p].side.ForWrite? ==> Reliance(m, m.threads[p]))
    && (c in m.threads && m.threads[c].side.ForRead? ==> Reliance(m, m.threads[c]))
    && (forall t :: t in m.threads ==> SizedCall(m.threads[t]))
  }

  // ---- what an unlocked look at the ring tells ----

  /** In every state, in the middle of a locked call too, the pointers tell the free bytes of the queue as
      it stands after the last call to take effect, up to a whole turn. */
  lemma PointersTellFree(m: Machine)
    requires Inv(m) && |m.ring.store| > 0
    ensures PointerGap(m.ring) == Free(m) % |m.ring.store|
  {
    hide RunFifo, Requests, Responses, Records, Scan, PointerGap, Valid, Queue;
    if m.holder.None? {
      GapBetweenCalls(m.ring);
    } else {
      HolderPointersTell(m.ring, m.base, QueueAfter(|m.ring.store|, m.history), m.threads[m.holder.value]);
    }
  }

  lemma HolderPointersTell(ring: Buf, base: Buf, q: seq<byte>, th: Thread)
    requires HolderInv(ring, base, q, th) && HoldsMutex(th.phase) && |ring.store| > 0
    ensures PointerGap(ring) == (|ring.store| - |q|) % |ring.store|
  {
    hide Valid, Queue, After, AfterMove, Delivered, Clamp, Linear, PointerGap;
    if th.phase.Moved? {
      GapAfterMove(base, th.req);
    } else if th.phase.Waking? || th.phase.Woken? {
      CallRefinesFifo(base, th.req);
      GapBetweenCalls(ring);
    } else {
      GapBetweenCalls(base);
      SameGap(ring, base, th.req);
    }
  }

  lemma SameGap(ring: Buf, base: Buf, r: Request)
    requires Valid(base) && |base.store| > 0
    requires ring == base || ring == AfterFirst(base, r) || ring == AfterSecond(base, r)
    ensures PointerGap(ring) == PointerGap(base)
  {
    hide Valid;
  }

  /** The state field, seen by the only writer while it is outside: EMPTY is true and stays true. */
  lemma WriterSeesState(m: Machine, p: nat, c: nat)
    requires Inv(m) && RoleInv(m, p, c) && p in m.threads && !InCall(m.threads[p].phase)
    ensures m.ring.state.EMPTY? ==> Used(m) == 0
  {
    hide RunFifo, Requests, Responses, Records, Scan;
    if m.holder.None? {
      CountsAgree(m.ring);
    } else {
      var th := m.threads[m.holder.value];
      assert th.req.Read?;
      HolderState(m.ring, m.base, QueueAfter(|m.ring.store|, m.history), th);
    }
  }

  lemma ReaderSeesState(m: Machine, p: nat, c: nat)
    requires Inv(m) && RoleInv(m, p, c) && c in m.threads && !InCall(m.threads[c].phase)
    ensures m.ring.state.FULL? ==> Used(m) == |m.ring.store|
    ensures m.ring.state.NORMAL? ==> Used(m) > 0
  {
    hide RunFifo, Requests, Responses, Records, Scan;
    if m.holder.None? {
      CountsAgree(m.ring);
    } else {
      var th := m.threads[m.holder.value];
      assert th.req.Write?;
      HolderState(m.ring, m.base, QueueAfter(|m.ring.store|, m.history), th);
    }
  }

  /** The state field in the middle of a call, against the queue as of the last call to take effect. */
  lemma HolderState(ring: Buf, base: Buf, q: seq<byte>, th: Thread)
    requires HolderInv(ring, base, q, th) && HoldsMutex(th.phase)
    ensures th.req.Read? && ring.state.EMPTY? ==> q == []
    ensures th.req.Write? && ring.state.FULL? ==> |q| == |ring.store|
    ensures th.req.Write? && ring.state.NORMAL? ==> |q| > 0
  {
    hide Queue, After, AfterMove, AfterSecond, AfterFirst, Delivered, DeliveredFirst, Clamp, Linear, NReadBytes;
    StateTells(base);
    StateDuringCall(base, th.req);
    if th.phase.Waking? || th.phase.Woken? {
      CallRefinesFifo(base, th.req);
      StateTells(ring);
    }
  }

  lemma StateTells(b: Buf)
    requires Valid(b)
    ensures b.state.EMPTY? ==> Queue(b) == []
    ensures b.state.FULL? ==> |Queue(b)| == |b.store|
    ensures b.state.NORMAL? ==> 0 < |Queue(b)| < |b.store|
  {
    CountsAgree(b);
  }

  /** The count a thread ends up with is covered by the queue as it stands when the pointers are loaded. */
  lemma SampledCountIsCovered(m: Machine, th: Thread, seen: State)
    requires Inv(m) && th.phase == Sampling(seen) && Reliance(m, th)
    requires seen.NORMAL? ==> |m.ring.store| > 0
    ensures var b := m.ring.(state := seen);
            if th.side.ForWrite? then NWriteBytes(b) <= Free(m) else NReadBytes(b) <= Used(m)
  {
    hide RunFifo, Requests, Inv, PointerGap;
    if seen.NORMAL? {
      PointersTellFree(m);
      SameGapWhateverState(m.ring, seen);
      ModWithinOneTurn(Free(m), |m.ring.store|);
    }
  }

  lemma SameGapWhateverState(b: Buf, seen: State)
    requires |b.store| > 0
    ensures PointerGap(b.(state := seen)) == PointerGap(b)
  {
  }

  // ---- every step keeps the roles' reliance ----

  /** A step that leaves the queue as it is changes nobody's reliance but the thread's own. */
  lemma SameQueue(m: Machine, m': Machine, t: nat, p: nat, c: nat)
    requires RoleInv(m, p, c) && t in m.threads && m'.threads.Keys == m.threads.Keys
    requires m'.threads == m.threads[t := m'.threads[t]]
    requires |m'.ring.store| == |m.ring.store| && Requests(m'.history) == Requests(m.history)
    requires var th := m'.threads[t];
             (InCall(th.phase) ==> t == if th.req.Write? then p else c) && SizedCall(th)
             && ((t == p && th.side.ForWrite?) || (t == c && th.side.ForRead?) ==> Reliance(m', th))
    ensures RoleInv(m', p, c)
  {
    hide RunFifo, Requests, SizedCall;
  }

  lemma SampleKeepsRoles(m: Machine, t: nat, side: Side, p: nat, c: nat)
    requires Inv(m) && RoleInv(m, p, c) && Do(m, Sample(t, side)).Ran?
    ensures RoleInv(Do(m, Sample(t, side)).m, p, c)
  {
    hide RunFifo, Requests, Inv;
    var m' := Do(m, Sample(t, side)).m;
    if t == p && side.ForWrite? {
      WriterSeesState(m, p, c);
    }
    if t == c && side.ForRead? {
      ReaderSeesState(m, p, c);
    }
    SameQueue(m, m', t, p, c);
  }

  lemma StartKeepsRoles(m: Machine, t: nat, req: Request, sized: bool, p: nat, c: nat)
    requires RoleInv(m, p, c) && Do(m, Start(t, req, sized)).Ran? && t == if req.Write? then p else c
    ensures RoleInv(Do(m, Start(t, req, sized)).m, p, c)
  {
    hide RunFifo, Requests, Records, Responses;
    var m' := Do(m, Start(t, req, sized)).m;
    AppendedQuietly(|m.ring.store|, m.history, Invoke(t, req));
    SameQueue(m, m', t, p, c);
  }

  lemma SampleEndKeepsRoles(m: Machine, t: nat, p: nat, c: nat)
    requires Inv(m) && RoleInv(m, p, c) && t in m.threads && m.threads[t].phase.Sampling?
    ensures Do(m, Advance(t)).Ran? && RoleInv(Do(m, Advance(t)).m, p, c)
  {
    hide RunFifo, Requests;
    var th := m.threads[t];
    assert th.phase.seen.NORMAL? ==> |m.ring.store| > 0;
    var m' := Do(m, Advance(t)).m;
    if (t == p && th.side.ForWrite?) || (t == c && th.side.ForRead?) {
      SampledCountIsCovered(m, th, th.phase.seen);
    }
    SameQueue(m, m', t, p, c);
  }

  /** What the steps other than those of a count and the move of the pointer do to the shared memory and to the
      thread's locals. */
  ghost predicate StepsAside(m: Machine, m': Machine, t: nat, th: Thread) {
    && t in m'.threads && m'.threads == m.threads[t := m'.threads[t]]
    && Requests(m'.history) == Requests(m.history) && |m'.ring.store| == |m.ring.store|
    && var th' := m'.threads[t];
       th' == th.(phase := th'.phase, n := th'.n, lin := th'.lin, out := th'.out)
       && InCall(th.phase) && !th'.phase.Sampling?
       && (InCall(th'.phase) ==> (HasMoved(th'.phase) <==> HasMoved(th.phase)))
       && (HasMoved(th.phase) ==> th'.n == th.n)
  }

  lemma OuterStepAside(m: Machine, t: nat, th: Thread)
    requires t in m.threads && th == m.threads[t] && Step(m, t, th).Ran?
    requires th.phase.Called? || th.phase.Woken? || th.phase.Released?
    ensures StepsAside(m, Step(m, t, th).m, t, th)
  {
    hide RunFifo, Requests, Records, Responses, StepSample, StepClamp, StepMeasure, StepFirstCopy, StepSecondCopy;
    hide StepMove, StepWake, SetState;
    var m' := Step(m, t, th).m;
    if |m'.history| > |m.history| {
      AppendedQuietly(|m.ring.store|, m.history, m'.history[|m.history|]);
    }
  }

  lemma CopyStepAside(m: Machine, t: nat, th: Thread)
    requires t in m.threads && th == m.threads[t] && Step(m, t, th).Ran?
    requires th.phase.Locked? || th.phase.Clamped? || th.phase.Measured? || th.phase.FirstCopied?
    ensures StepsAside(m, Step(m, t, th).m, t, th)
  {
    hide RunFifo, Requests, LinearReadBytes, LinearWriteBytes, NReadBytes, NWriteBytes, FirstStretch, SecondStretch;
    hide StepSample, StepMove, StepWake, SetState;
  }

  lemma LateStepAside(m: Machine, t: nat, th: Thread)
    requires t in m.threads && th == m.threads[t] && Step(m, t, th).Ran?
    requires th.phase.Moved? || th.phase.Waking?
    ensures StepsAside(m, Step(m, t, th).m, t, th)
  {
    hide RunFifo, Requests, NReadBytes, NWriteBytes, StepSample, StepClamp, StepMeasure, StepFirstCopy, StepSecondCopy;
    hide StepMove;
  }

  lemma IdleIsDisabled(m: Machine, t: nat, th: Thread)
    requires Step(m, t, th).Ran?
    ensures !th.phase.Idle?
  {
  }

  lemma StepsAsideOf(m: Machine, t: nat, th: Thread)
    requires t in m.threads && th == m.threads[t] && Step(m, t, th).Ran?
    requires !th.phase.Sampling? && !th.phase.SecondCopied?
    ensures StepsAside(m, Step(m, t, th).m, t, th)
  {
    hide Step, StepsAside;
    if th.phase.Called? || th.phase.Woken? || th.phase.Released? {
      OuterStepAside(m, t, th);
    } else if th.phase.Moved? || th.phase.Waking? {
      LateStepAside(m, t, th);
    } else {
      IdleIsDisabled(m, t, th);
      CopyStepAside(m, t, th);
    }
  }

  lemma OtherStepKeepsRoles(m: Machine, t: nat, p: nat, c: nat)
    requires RoleInv(m, p, c) && t in m.threads && Do(m, Advance(t)).Ran?
    requires !m.threads[t].phase.Sampling? && !m.threads[t].phase.SecondCopied?
    ensures RoleInv(Do(m, Advance(t)).m, p, c)
  {
    hide RunFifo, Requests, Step;
    StepsAsideOf(m, t, m.threads[t]);
    SameQueue(m, Do(m, Advance(t)).m, t, p, c);
  }

  /** The call takes effect: the writer's bytes fit, the reader's are there, and each side only gains from
      what the other does. */
  lemma MoveKeepsRoles(m: Machine, t: nat, p: nat, c: nat)
    requires Inv(m) && RoleInv(m, p, c) && t in m.threads && m.threads[t].phase.SecondCopied?
    ensures Do(m, Advance(t)).Ran? && RoleInv(Do(m, Advance(t)).m, p, c)
  {
    hide RunFifo, Requests, Records, Responses, Inv, Valid, Queue, Clamp;
    var th := m.threads[t];
    var m' := Do(m, Advance(t)).m;
    var cap, q := |m.ring.store|, QueueAfter(|m.ring.store|, m.history);
    MoveMovesAll(m, t, p, c);
    assert QueueAfter(cap, m'.history) == Next(cap, q, th.req);
    assert Free(m') == if th.req.Write? then Free(m) - th.n else Free(m) + th.n;
    forall u | u in m'.threads
      ensures SizedCall(m'.threads[u])
    {
    }
    RolesAfterMove(m, m', t, p, c);
  }

  lemma MoveMovesAll(m: Machine, t: nat, p: nat, c: nat)
    requires Inv(m) && RoleInv(m, p, c) && t in m.threads && m.threads[t].phase.SecondCopied?
    ensures Do(m, Advance(t)).Ran?
    ensures var th, q := m.threads[t], QueueAfter(|m.ring.store|, m.history);
            QueueAfter(|m.ring.store|, Do(m, Advance(t)).m.history) == Next(|m.ring.store|, q, th.req)
            && th.n == Fifo.Moved(|m.ring.store|, q, th.req)
            && (th.sized ==> th.n == Size(th.req))
  {
    hide RunFifo, Requests, Responses, Records, Scan, HolderInv, Valid, Queue, Reliance, SizedCall, Fifo.Moved;
    var th := m.threads[t];
    var q := QueueAfter(|m.ring.store|, m.history);
    assert m.holder == Some(t);
    HolderWillMove(m.ring, m.base, q, th);
    HistoryAfterMove(|m.ring.store|, m.history, Commit(t, th.req, Response(th.n, th.out)));
    if th.sized {
      MoverRelies(m, t, p, c);
      SizedMovesAll(m, th, q);
    }
  }

  /** The clamp is what the bounded queue moves. */
  lemma HolderWillMove(ring: Buf, base: Buf, q: seq<byte>, th: Thread)
    requires HolderInv(ring, base, q, th) && th.phase.SecondCopied?
    ensures |q| <= |ring.store| && th.n == Fifo.Moved(|ring.store|, q, th.req)
  {
    hide After, AfterMove, AfterSecond, AfterFirst, Delivered, DeliveredFirst, Clamp, Linear, Valid, Queue;
    ClampIsMoved(base, th.req);
  }

  lemma HistoryAfterMove(cap: nat, h: seq<Event>, e: Event)
    requires e.Commit?
    ensures QueueAfter(cap, h + [e]) == Next(cap, QueueAfter(cap, h), e.req)
  {
    hide RunFifo, Requests, Responses, Scan;
    Appended(h, e, e.thread);
    RunSnoc(cap, [], Requests(h), e.req);
  }

  lemma MoverRelies(m: Machine, t: nat, p: nat, c: nat)
    requires RoleInv(m, p, c) && t in m.threads && m.threads[t].phase.SecondCopied? && m.threads[t].sized
    ensures SizedCall(m.threads[t]) && Reliance(m, m.threads[t])
  {
    hide Reliance;
    assert SizedCall(m.threads[t]);
  }

  /** A call sized by a count asks for no more than there is. */
  lemma SizedMovesAll(m: Machine, th: Thread, q: seq<byte>)
    requires th.sized && th.phase.SecondCopied? && SizedCall(th) && Reliance(m, th)
    requires q == QueueAfter(|m.ring.store|, m.history)
    ensures Fifo.Moved(|m.ring.store|, q, th.req) == Size(th.req)
  {
    hide RunFifo, Requests;
  }

  lemma RolesAfterMove(m: Machine, m': Machine, t: nat, p: nat, c: nat)
    requires RoleInv(m, p, c) && t in m.threads && m.threads[t].phase.SecondCopied? && |m'.ring.store| == |m.ring.store|
    requires var th := m.threads[t];
             var left := if th.sized then th.budget - Size(th.req) else th.budget;
             m'.threads == m.threads[t := th.(phase := Moved, budget := left)]
             && th.n == Fifo.Moved(|m.ring.store|, QueueAfter(|m.ring.store|, m.history), th.req)
             && (th.sized ==> th.n == Size(th.req))
             && Free(m') == if th.req.Write? then Free(m) - th.n else Free(m) + th.n
    ensures RoleInv(m', p, c)
  {
    hide RunFifo, Requests;
  }

  lemma StepKeepsRoles(m: Machine, a: Action, p: nat, c: nat)
    requires Inv(m) && RoleInv(m, p, c) && Do(m, a).Ran? && (a.Start? ==> a.t == if a.req.Write? then p else c)
    ensures Inv(Do(m, a).m) && RoleInv(Do(m, a).m, p, c)
  {
    hide RunFifo, Requests, Inv, Step, RoleInv;
    StepKeepsInv(m, a);
    match a
    case Register => RegisterKeepsRoles(m, p, c);
    case Sample(t, side) => SampleKeepsRoles(m, t, side, p, c);
    case Start(t, req, sized) => StartKeepsRoles(m, t, req, sized, p, c);
    case Advance(t) =>
      if m.threads[t].phase.Sampling? {
        SampleEndKeepsRoles(m, t, p, c);
      } else if m.threads[t].phase.SecondCopied? {
        MoveKeepsRoles(m, t, p, c);
      } else {
        OtherStepKeepsRoles(m, t, p, c);
      }
  }

  lemma RegisterKeepsRoles(m: Machine, p: nat, c: nat)
    requires RoleInv(m, p, c)
    ensures RoleInv(Do(m, Register).m, p, c)
  {
    hide RunFifo, Requests;
  }

  lemma {:induction false} EveryRoleRunKeepsCounts(
    store: seq<byte>, ids: set<nat>, schedule: seq<Action>, p: nat, c: nat)
    requires Roles(schedule, p, c)
    ensures !Exec(Init(store, ids), schedule).Fault?
    ensures Exec(Init(store, ids), schedule).Ran? ==>
              var m := Exec(Init(store, ids), schedule).m; Inv(m) && RoleInv(m, p, c)
  {
    EveryRunKeepsInv(store, ids, schedule);
    if schedule != [] {
      var i := |schedule| - 1;
      assert schedule[i] in schedule;
      EveryRoleRunKeepsCounts(store, ids, schedule[..i], p, c);
      if Exec(Init(store, ids), schedule).Ran? {
        StepKeepsRoles(Exec(Init(store, ids), schedule[..i]).m, schedule[i], p, c);
      }
    }
  }

  // ---- calls sized by a count ----

  /** The thread is outside, or in the call for `req`, sized by a count. */
  ghost predicate InSizedCall(m: Machine, t: nat, req: Request) {
    t in m.threads && (InCall(m.threads[t].phase) ==> m.threads[t].req == req && m.threads[t].sized)
  }

  /** Until the thread makes another call. */
  lemma StepKeepsCall(m: Machine, a: Action, t: nat, req: Request)
    requires InSizedCall(m, t, req) && Do(m, a).Ran? && !(a.Start? && a.t == t)
    ensures InSizedCall(Do(m, a).m, t, req)
  {
    hide RunFifo, Requests, Records, Responses, CopyInFirst, CopyInSecond, SetState, LinearReadBytes, LinearWriteBytes;
    hide FirstStretch, SecondStretch, NReadBytes, NWriteBytes, Unheard, Committed;
  }

  lemma {:induction false} StaysInCall(
    store: seq<byte>, ids: set<nat>, schedule: seq<Action>, a: nat, t: nat, req: Request)
    requires Exec(Init(store, ids), schedule).Ran? && a < |schedule| && schedule[a] == Start(t, req, true)
    requires forall i :: a < i < |schedule| ==> !(schedule[i].Start? && schedule[i].t == t)
    ensures InSizedCall(Exec(Init(store, ids), schedule).m, t, req)
  {
    hide InSizedCall;
    var last := |schedule| - 1;
    var m := Exec(Init(store, ids), schedule[..last]).m;
    if a < last {
      hide Do;
      StaysInCall(store, ids, schedule[..last], a, t, req);
      StepKeepsCall(m, schedule[last], t, req);
    } else {
      EntersCall(m, t, req);
    }
  }

  lemma EntersCall(m: Machine, t: nat, req: Request)
    requires Do(m, Start(t, req, true)).Ran?
    ensures InSizedCall(Do(m, Start(t, req, true)).m, t, req)
  {
  }

  /** The step with which a call returns. */
  ghost predicate Returns(m: Machine, a: Action, t: nat, resp: Response) {
    Do(m, a).Ran? && Do(m, a).m.history == m.history + [Return(t, resp)]
  }

  lemma ReturnTellsCount(m: Machine, a: Action, t: nat, req: Request, resp: Response)
    requires InSizedCall(m, t, req) && SizedCall(m.threads[t]) && Returns(m, a, t, resp)
    ensures resp.count == Size(req)
  {
    hide RunFifo, Requests, Records, Responses, CopyInFirst, CopyInSecond, SetState, LinearReadBytes, LinearWriteBytes;
    hide FirstStretch, SecondStretch, NReadBytes, NWriteBytes, Unheard, Committed;
    var h, h' := m.history, Do(m, a).m.history;
    assert h'[|h'| - 1] == Return(t, resp) && |h'| == |h| + 1;
  }

  /** Check-then-act with one producer and one consumer: in every interleaving, a call whose size was taken from
      a count, however stale, returns exactly the size it asked for. */
  lemma SizedCallsMoveAll(
    store: seq<byte>, ids: set<nat>, schedule: seq<Action>, p: nat, c: nat, a: nat, t: nat, req: Request,
    end: Action, resp: Response)
    requires Roles(schedule, p, c) && Exec(Init(store, ids), schedule).Ran?
    requires a < |schedule| && schedule[a] == Start(t, req, true)
    requires forall i :: a < i < |schedule| ==> !(schedule[i].Start? && schedule[i].t == t)
    requires Returns(Exec(Init(store, ids), schedule).m, end, t, resp)
    ensures resp.count == Size(req)
  {
    hide Exec, Inv, InSizedCall, SizedCall, Returns;
    EveryRoleRunKeepsCounts(store, ids, schedule, p, c);
    StaysInCall(store, ids, schedule, a, t, req);
    var m := Exec(Init(store, ids), schedule).m;
    InSizedThread(m, t, req);
    ReturnTellsCount(m, end, t, req, resp);
  }

  lemma InSizedThread(m: Machine, t: nat, req: Request)
    requires InSizedCall(m, t, req)
    ensures t in m.threads
  {
  }

  // ---- the count itself ----

  /** The count, by the state field seen: an EMPTY or FULL ring is not looked at again, and for a NORMAL one the
      pointers tell the free bytes as of the last call to take effect, up to a whole turn.  This holds in the
      middle of whatever another thread is doing. */
  lemma CountTellsRoom(m: Machine, t: nat)
    requires Inv(m) && t in m.threads && m.threads[t].phase.Sampling?
    ensures Do(m, Advance(t)).Ran? && t in Do(m, Advance(t)).m.threads
    ensures var th, th' := m.threads[t], Do(m, Advance(t)).m.threads[t];
            th'.phase.Idle? && th'.side == th.side
            && (th.phase.seen.NORMAL? ==> |m.ring.store| > 0)
            && var len := |m.ring.store|;
               var room := match th.phase.seen case EMPTY => len case FULL => 0 case NORMAL => Free(m) % len;
               th'.budget == if th.side.ForWrite? then room else len - room
  {
    hide RunFifo, Requests, Responses, Records, Scan, PointerGap, RingInv, HistoryInv, PipesInv, MutexInv;
    var seen := m.threads[t].phase.seen;
    if seen.NORMAL? {
      PointersTellFree(m);
      SameGapWhateverState(m.ring, seen);
    }
  }

  /** A count taken while no call is in progress is exact, and calls of up to that size can be made on it. */
  lemma QuietCountIsExact(m: Machine, t: nat, side: Side, req: Request)
    requires Inv(m) && m.holder.None? && t in m.threads && m.threads[t].phase.Idle? && side == SideOf(req)
    ensures Do(m, Sample(t, side)).Ran? && Do(Do(m, Sample(t, side)).m, Advance(t)).Ran?
    ensures var m' := Do(Do(m, Sample(t, side)).m, Advance(t)).m;
            t in m'.threads && m'.threads[t].budget == (if side.ForWrite? then Free(m) else Used(m))
            && (Do(m', Start(t, req, true)).Ran? <==> Size(req) <= if side.ForWrite? then Free(m) else Used(m))
  {
    hide RunFifo, Requests, Responses, Records, Scan, PointerGap, Queue, Valid;
    SampleKeepsInv(m, t, side);
    var m1 := Do(m, Sample(t, side)).m;
    CountsAgree(m.ring);
    SeenCountIsExact(m1, t);
  }

  lemma SeenCountIsExact(m: Machine, t: nat)
    requires Inv(m) && m.holder.None? && t in m.threads && m.threads[t].phase == Sampling(m.ring.state)
    ensures Do(m, Advance(t)).Ran? && t in Do(m, Advance(t)).m.threads
    ensures Do(m, Advance(t)).m.threads[t] ==
            m.threads[t].(phase := Idle, budget := if m.threads[t].side.ForWrite? then Free(m) else Used(m))
  {
    hide RunFifo, Requests, Responses, Records, Scan, Queue, Valid, NReadBytes, NWriteBytes;
    NormalNeedsStorage(m);
    CountsAgree(m.ring);
    assert m.ring.(state := m.ring.state) == m.ring;
  }

  /** The bytes asked for by those calls of a thread that have taken effect. */
  function TakenBy(h: seq<Event>, t: nat): nat {
    if h == [] then 0
    else
      var e := h[|h| - 1];
      TakenBy(h[..|h| - 1], t) + if e.Commit? && e.thread == t then Size(e.req) else 0
  }

  lemma TakenByOneMore(h: seq<Event>, e: Event, t: nat)
    ensures TakenBy(h + [e], t) == TakenBy(h, t) + if e.Commit? && e.thread == t then Size(e.req) else 0
  {
    assert (h + [e])[..|h|] == h;
  }

  /** What is left of a count. */
  ghost predicate Left(m: Machine, t: nat, total: int) {
    && t in m.threads && !m.threads[t].phase.Sampling?
    && m.threads[t].budget + TakenBy(m.history, t) == total
    && (InCall(m.threads[t].phase) ==> m.threads[t].sized)
  }

  /** Steps of the thread other than a new count or a call not sized by it, and all steps of others. */
  predicate OnCount(a: Action, t: nat) {
    !(a.Sample? && a.t == t) && (a.Start? && a.t == t ==> a.sized)
  }

  lemma StepKeepsLeft(m: Machine, a: Action, t: nat, total: int)
    requires Left(m, t, total) && OnCount(a, t) && Do(m, a).Ran?
    ensures Left(Do(m, a).m, t, total)
  {
    hide Left;
    if a == Advance(t) {
      OwnStepKeepsLeft(m, t, total);
    } else {
      hide Step;
      OtherKeepsLeft(m, a, t, total);
    }
  }

  lemma OwnStepKeepsLeft(m: Machine, t: nat, total: int)
    requires Left(m, t, total) && Do(m, Advance(t)).Ran?
    ensures Left(Do(m, Advance(t)).m, t, total)
  {
    var m' := Do(m, Advance(t)).m;
    var th := m.threads[t];
    if th.phase.SecondCopied? {
      hide RunFifo, Requests, TakenBy, MoveRead, MoveWrite;
      TakenByOneMore(m.history, Commit(t, th.req, Response(th.n, th.out)), t);
    } else {
      hide RunFifo, Requests, TakenBy, Step;
      StepsAsideOf(m, t, th);
      QuietForTaken(m, m', t);
    }
  }

  /** Steps that are no commit. */
  lemma QuietForTaken(m: Machine, m': Machine, t: nat)
    requires t in m.threads && !m.threads[t].phase.SecondCopied? && Do(m, Advance(t)) == Ran(m')
    ensures TakenBy(m'.history, t) == TakenBy(m.history, t)
  {
    hide RunFifo, Requests, Records, Responses, CopyInFirst, CopyInSecond, SetState, LinearReadBytes, LinearWriteBytes;
    hide FirstStretch, SecondStretch, NReadBytes, NWriteBytes, Unheard, Committed, TakenBy;
    if |m'.history| > |m.history| {
      TakenByOneMore(m.history, m'.history[|m.history|], t);
    }
  }

  lemma OtherKeepsLeft(m: Machine, a: Action, t: nat, total: int)
    requires Left(m, t, total) && OnCount(a, t) && Do(m, a).Ran? && a != Advance(t)
    ensures Left(Do(m, a).m, t, total)
  {
    hide RunFifo, Requests, Records, Responses, CopyInFirst, CopyInSecond, SetState, LinearReadBytes, LinearWriteBytes;
    hide FirstStretch, SecondStretch, NReadBytes, NWriteBytes, Unheard, Committed, TakenBy;
    var m' := Do(m, a).m;
    if |m'.history| > |m.history| {
      var e := m'.history[|m.history|];
      assert m'.history == m.history + [e];
      TakenByOneMore(m.history, e, t);
    }
  }

  /** A count is used up by the calls sized by it and by nothing else: what is left of it and what the thread's
      calls have asked for since add up to it. */
  lemma CountIsSpent(store: seq<byte>, ids: set<nat>, s1: seq<Action>, s2: seq<Action>, t: nat)
    requires Exec(Init(store, ids), s1 + s2).Ran? && forall a :: a in s2 ==> OnCount(a, t)
    ensures Exec(Init(store, ids), s1).Ran?
    ensures var m, m' := Exec(Init(store, ids), s1).m, Exec(Init(store, ids), s1 + s2).m;
            t in m.threads && m.threads[t].phase.Idle? ==>
              t in m'.threads
              && m'.threads[t].budget + TakenBy(m'.history, t) == m.threads[t].budget + TakenBy(m.history, t)
  {
    hide Exec, OnCount;
    CountStays(store, ids, s1, s2, t);
  }

  lemma {:induction false} CountStays(store: seq<byte>, ids: set<nat>, s1: seq<Action>, s2: seq<Action>, t: nat)
    requires Exec(Init(store, ids), s1 + s2).Ran? && forall a :: a in s2 ==> OnCount(a, t)
    ensures Exec(Init(store, ids), s1).Ran?
    ensures var m, m' := Exec(Init(store, ids), s1).m, Exec(Init(store, ids), s1 + s2).m;
            t in m.threads && m.threads[t].phase.Idle? ==>
              Left(m', t, m.threads[t].budget + TakenBy(m.history, t))
    decreases |s2|
  {
    if s2 == [] {
      assert s1 + s2 == s1;
    } else {
      hide Do, Left, OnCount;
      var i, a := |s2| - 1, s2[|s2| - 1];
      assert (s1 + s2)[..|s1 + s2| - 1] == s1 + s2[..i];
      CountStays(store, ids, s1, s2[..i], t);
      var m := Exec(Init(store, ids), s1).m;
      if t in m.threads && m.threads[t].phase.Idle? {
        StepKeepsLeft(Exec(Init(store, ids), s1 + s2[..i]).m, a, t, m.threads[t].budget + TakenBy(m.history, t));
      }
    }
  }
}
