/** Progress of the threads that share a ring: nobody waits for ever, and every call can be brought to its return. */
module Progress {
  import opened Bytes
  import opened Fifo
  import opened Ring
  import opened Concurrent
  import opened Polling

  /** The steps a thread has left in its call, with `n` events to report to. */
  function Remaining(p: Phase, n: nat): nat {
    match p
    case Idle => 0
    case Sampling(_) => 1
    case Released => 1
    case Woken => 2
    case Waking(next) => if next < n then 3 + n - next else 3
    case Moved => 4 + n
    case SecondCopied => 5 + n
    case FirstCopied => 6 + n
    case Measured => 7 + n
    case Clamped => 8 + n
    case Locked => 9 + n
    case Called => 10 + n
  }

  /** What one step of thread `t` brings about. */
  ghost predicate Advances(m: Machine, m': Machine, t: nat) {
    && t in m.threads && t in m'.threads && m'.threads == m.threads[t := m'.threads[t]]
    && |m'.pipes| == |m.pipes|
    && Remaining(m'.threads[t].phase, |m.pipes|) < Remaining(m.threads[t].phase, |m.pipes|)
    && (m'.holder == m.holder || m'.holder == Some(t) || m'.holder.None?)
  }

  /** The mutex is never in the way of a thread that holds it, nor of any when nobody does: in particular a
      waiting call gets a free mutex. */
  lemma NoOneIsStuck(m: Machine, t: nat)
    requires Inv(m) && t in m.threads && !m.threads[t].phase.Idle? && (m.holder.None? || m.holder == Some(t))
    ensures Do(m, Advance(t)).Ran? && Advances(m, Do(m, Advance(t)).m, t) && Inv(Do(m, Advance(t)).m)
    ensures m.threads[t].phase.Called? && Size(m.threads[t].req) > 0 ==>
              Do(m, Advance(t)).m.holder == Some(t)
              && t in Do(m, Advance(t)).m.threads && Do(m, Advance(t)).m.threads[t].phase.Locked?
  {
    hide Inv, Advances, Step;
    AdvanceKeepsInv(m, t);
    StepAdvances(m, t, m.threads[t]);
  }

  lemma StepAdvances(m: Machine, t: nat, th: Thread)
    requires Inv(m) && t in m.threads && th == m.threads[t] && !th.phase.Idle?
    requires m.holder.None? || m.holder == Some(t)
    ensures Step(m, t, th) != Disabled && (Step(m, t, th).Ran? ==> Advances(m, Step(m, t, th).m, t))
    ensures th.phase.Called? && Size(th.req) > 0 ==>
              Step(m, t, th).Ran? && Step(m, t, th).m.holder == Some(t)
              && t in Step(m, t, th).m.threads && Step(m, t, th).m.threads[t].phase.Locked?
  {
    hide Inv, Advances, Step;
    if th.phase.Called? {
      CalledIsOutside(m, t);
      CallAdvances(m, t, th);
    } else if th.phase.Locked? || th.phase.Clamped? || th.phase.Measured? || th.phase.FirstCopied? {
      CopyAdvances(m, t, th);
    } else {
      RestAdvances(m, t, th);
    }
  }

  lemma CalledIsOutside(m: Machine, t: nat)
    requires Inv(m) && t in m.threads && m.threads[t].phase.Called?
    ensures m.holder != Some(t)
  {
    hide RingInv, HistoryInv, PipesInv, SampleInv;
  }

  lemma CallAdvances(m: Machine, t: nat, th: Thread)
    requires t in m.threads && th == m.threads[t] && th.phase.Called? && m.holder.None?
    ensures Step(m, t, th).Ran? && Advances(m, Step(m, t, th).m, t)
    ensures Size(th.req) > 0 ==>
              Step(m, t, th).m.holder == Some(t)
              && t in Step(m, t, th).m.threads && Step(m, t, th).m.threads[t].phase.Locked?
  {
  }

  lemma CopyAdvances(m: Machine, t: nat, th: Thread)
    requires t in m.threads && th == m.threads[t]
    requires th.phase.Locked? || th.phase.Clamped? || th.phase.Measured? || th.phase.FirstCopied?
    ensures Step(m, t, th) != Disabled && (Step(m, t, th).Ran? ==> Advances(m, Step(m, t, th).m, t))
  {
    hide CopyInFirst, CopyInSecond, FirstStretch, SecondStretch;
    hide LinearReadBytes, LinearWriteBytes, NReadBytes, NWriteBytes;
  }

  lemma RestAdvances(m: Machine, t: nat, th: Thread)
    requires t in m.threads && th == m.threads[t] && !th.phase.Idle? && !th.phase.Called?
    requires !(th.phase.Locked? || th.phase.Clamped? || th.phase.Measured? || th.phase.FirstCopied?)
    ensures Step(m, t, th) != Disabled && (Step(m, t, th).Ran? ==> Advances(m, Step(m, t, th).m, t))
  {
    hide SetState, NReadBytes, NWriteBytes;
  }

  /** Whoever is in a call, some thread in a call can advance. */
  lemma NoDeadlock(store: seq<byte>, ids: set<nat>, schedule: seq<Action>, t: nat) returns (u: nat)
    requires Exec(Init(store, ids), schedule).Ran?
    requires var m := Exec(Init(store, ids), schedule).m; t in m.threads && !m.threads[t].phase.Idle?
    ensures Exec(Init(store, ids), schedule + [Advance(u)]).Ran?
    ensures var m := Exec(Init(store, ids), schedule).m; u in m.threads && !m.threads[u].phase.Idle?
  {
    hide Exec, Do, RingInv, HistoryInv, PipesInv, SampleInv;
    EveryRunKeepsInv(store, ids, schedule);
    var m := Exec(Init(store, ids), schedule).m;
    u := if m.holder.Some? then m.holder.value else t;
    NoOneIsStuck(m, u);
    ExecSnoc(Init(store, ids), schedule, Advance(u));
  }

  /** One thread runs to the end of its call. */
  lemma {:induction false} Finish(store: seq<byte>, ids: set<nat>, schedule: seq<Action>, t: nat)
    returns (rest: seq<Action>)
    requires Exec(Init(store, ids), schedule).Ran?
    requires var m := Exec(Init(store, ids), schedule).m; t in m.threads && (m.holder.None? || m.holder == Some(t))
    ensures forall a :: a in rest ==> a == Advance(t)
    ensures Exec(Init(store, ids), schedule + rest).Ran?
    ensures var m, m' := Exec(Init(store, ids), schedule).m, Exec(Init(store, ids), schedule + rest).m;
            m'.holder.None? && t in m'.threads && m'.threads[t].phase.Idle?
            && m'.threads == m.threads[t := m'.threads[t]]
    decreases var m := Exec(Init(store, ids), schedule).m; Remaining(m.threads[t].phase, |m.pipes|)
  {
    hide Exec, Do, Inv, Remaining;
    EveryRunKeepsInv(store, ids, schedule);
    var m := Exec(Init(store, ids), schedule).m;
    if m.threads[t].phase.Idle? {
      rest := [];
      assert schedule + rest == schedule;
      IdleIsOutside(m, t);
    } else {
      NoOneIsStuck(m, t);
      ExecSnoc(Init(store, ids), schedule, Advance(t));
      var more := Finish(store, ids, schedule + [Advance(t)], t);
      rest := [Advance(t)] + more;
      assert schedule + rest == schedule + [Advance(t)] + more;
    }
  }

  lemma IdleIsOutside(m: Machine, t: nat)
    requires Inv(m) && t in m.threads && m.threads[t].phase.Idle?
    ensures m.holder != Some(t)
  {
    hide RingInv, HistoryInv, PipesInv, SampleInv;
  }

  lemma HolderIsBusy(m: Machine)
    requires Inv(m) && m.holder.Some?
    ensures m.holder.value in m.threads && m.holder.value in Busy(m)
  {
    hide RingInv, HistoryInv, PipesInv, SampleInv;
  }

  /** The threads in a call, or taking a count. */
  function Busy(m: Machine): set<nat> {
    set t | t in m.threads && !m.threads[t].phase.Idle?
  }

  lemma {:induction false} FinishAll(store: seq<byte>, ids: set<nat>, schedule: seq<Action>)
    returns (rest: seq<Action>)
    requires Exec(Init(store, ids), schedule).Ran?
    ensures forall a :: a in rest ==> a.Advance?
    ensures Exec(Init(store, ids), schedule + rest).Ran?
    ensures var m, m' := Exec(Init(store, ids), schedule).m, Exec(Init(store, ids), schedule + rest).m;
            m'.holder.None? && m'.threads.Keys == m.threads.Keys && Busy(m') == {}
    decreases |Busy(Exec(Init(store, ids), schedule).m)|
  {
    hide Exec, Do, Inv;
    EveryRunKeepsInv(store, ids, schedule);
    var m := Exec(Init(store, ids), schedule).m;
    if m.holder.Some? {
      HolderIsBusy(m);
    }
    if Busy(m) == {} {
      rest := [];
      assert schedule + rest == schedule;
    } else {
      var t := if m.holder.Some? then m.holder.value else var u :| u in Busy(m); u;
      var first := Finish(store, ids, schedule, t);
      assert Busy(Exec(Init(store, ids), schedule + first).m) == Busy(m) - {t};
      var more := FinishAll(store, ids, schedule + first);
      rest := first + more;
      assert schedule + rest == schedule + first + more;
    }
  }

  /** Progress: from every reachable state, steps of the threads in a call are enough to bring all calls to their
      return; then every call made has returned and each of the threads may make any call. */
  lemma EveryCallCanReturn(store: seq<byte>, ids: set<nat>, schedule: seq<Action>) returns (rest: seq<Action>)
    requires Exec(Init(store, ids), schedule).Ran?
    ensures forall a :: a in rest ==> a.Advance?
    ensures Exec(Init(store, ids), schedule + rest).Ran?
    ensures var m := Exec(Init(store, ids), schedule + rest).m;
            m.threads.Keys == ids && (forall t :: Scan(m.history, t) == Outside)
            && forall t, req :: t in ids ==> Do(m, Start(t, req, false)).Ran?
  {
    hide Exec, Scan, RunFifo, Requests, Responses, RingInv, PipesInv, SampleInv;
    rest := FinishAll(store, ids, schedule);
    var m := Exec(Init(store, ids), schedule + rest).m;
    ThreadsStay(store, ids, schedule + rest);
    EveryRunKeepsInv(store, ids, schedule + rest);
    assert forall t :: t in m.threads ==> t !in Busy(m);
  }

  lemma {:induction false} ThreadsStay(store: seq<byte>, ids: set<nat>, schedule: seq<Action>)
    requires Exec(Init(store, ids), schedule).Ran?
    ensures Exec(Init(store, ids), schedule).m.threads.Keys == ids
  {
    if schedule != [] {
      hide Do;
      ThreadsStay(store, ids, schedule[..|schedule| - 1]);
      StepKeepsThreads(Exec(Init(store, ids), schedule[..|schedule| - 1]).m, schedule[|schedule| - 1]);
    }
  }

  lemma StepKeepsThreads(m: Machine, a: Action)
    requires Do(m, a).Ran?
    ensures Do(m, a).m.threads.Keys == m.threads.Keys
  {
    hide RunFifo, Requests, Records, Responses, CopyInFirst, CopyInSecond, SetState, LinearReadBytes, LinearWriteBytes;
    hide FirstStretch, SecondStretch, NReadBytes, NWriteBytes, Unheard, Committed;
  }
}
