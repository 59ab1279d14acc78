/** Registering events on the ring that the threads share, and polling their pipes (src/core/event_unix.c). */
module Polling {
  import opened Bytes
  import opened Fifo
  import opened Ring
  import opened Events
  import opened Concurrent

  // ---- registration ----

  /** The number of events registered by a schedule. */
  function Registered(schedule: seq<Action>): nat {
    if schedule == [] then 0
    else Registered(schedule[..|schedule| - 1]) + if schedule[|schedule| - 1].Register? then 1 else 0
  }

  /** A call has taken effect whose reports are not over. */
  predicate Reporting(m: Machine) {
    m.holder.Some? && m.holder.value in m.threads &&
    var p := m.threads[m.holder.value].phase; p.Moved? || p.Waking?
  }

  /** The number of calls that an event registered now will not hear of: all that have taken effect, but for
      the one still being reported. */
  function Missed(m: Machine): int {
    Committed(m.history) - if Reporting(m) then 1 else 0
  }

  lemma ExecSnoc(m: Machine, schedule: seq<Action>, a: Action)
    ensures Exec(m, schedule + [a]) ==
            var before := Exec(m, schedule); if before.Ran? then Do(before.m, a) else before
  {
    assert (schedule + [a])[..|schedule|] == schedule;
  }

  /** One pipe for each registration, and the reports go to them only. */
  ghost predicate PipesCounted(m: Machine, n: nat) {
    && |m.pipes| == |m.since| == n
    && forall t :: t in m.threads && m.threads[t].phase.Waking? ==> m.threads[t].phase.next <= n
  }

  lemma {:induction false} EveryRunCountsPipes(store: seq<byte>, ids: set<nat>, schedule: seq<Action>)
    requires Exec(Init(store, ids), schedule).Ran?
    ensures PipesCounted(Exec(Init(store, ids), schedule).m, Registered(schedule))
  {
    if schedule != [] {
      hide Do, PipesCounted;
      var i := |schedule| - 1;
      EveryRunCountsPipes(store, ids, schedule[..i]);
      StepCountsPipes(Exec(Init(store, ids), schedule[..i]).m, schedule[i], Registered(schedule[..i]));
    }
  }

  lemma StepCountsPipes(m: Machine, a: Action, n: nat)
    requires PipesCounted(m, n) && Do(m, a).Ran?
    ensures PipesCounted(Do(m, a).m, if a.Register? then n + 1 else n)
  {
    hide RunFifo, Requests, Step, Unheard, Committed;
    if a.Advance? {
      hide PipesCounted;
      AdvanceCountsPipes(m, a.t, n);
    }
  }

  lemma AdvanceCountsPipes(m: Machine, t: nat, n: nat)
    requires PipesCounted(m, n) && t in m.threads && Step(m, t, m.threads[t]).Ran?
    ensures PipesCounted(Step(m, t, m.threads[t]).m, n)
  {
    hide RunFifo, Requests, CopyInFirst, CopyInSecond, SetState, LinearReadBytes, LinearWriteBytes;
    hide FirstStretch, SecondStretch, NReadBytes, NWriteBytes, PipesCounted;
    var m' := Step(m, t, m.threads[t]).m;
    StillCounted(m, m', t, n) by {
      assert m'.threads == m.threads[t := m'.threads[t]];
      assert m.threads[t].phase.Waking? ==> m.threads[t].phase.next <= n by { WakingCounted(m, t, n); }
      assert |m.pipes| == n by { WakingCounted(m, t, n); }
    }
  }

  lemma WakingCounted(m: Machine, t: nat, n: nat)
    requires PipesCounted(m, n)
    ensures |m.pipes| == n && (t in m.threads && m.threads[t].phase.Waking? ==> m.threads[t].phase.next <= n)
  {
  }

  lemma StillCounted(m: Machine, m': Machine, t: nat, n: nat)
    requires PipesCounted(m, n) && |m'.pipes| == |m.pipes| && m'.since == m.since
    requires t in m'.threads && m'.threads == m.threads[t := m'.threads[t]]
    requires m'.threads[t].phase.Waking? ==> m'.threads[t].phase.next <= n
    ensures PipesCounted(m', n)
  {
  }

  /** A new pipe is empty, and its event misses what had been reported. */
  lemma NewPipe(m: Machine, n: nat)
    requires Inv(m) && PipesCounted(m, n) && Do(m, Register).Ran?
    ensures var m' := Do(m, Register).m;
            PipesCounted(m', n + 1) && m'.pipes[n] == [] && m'.since[n] == Missed(m)
  {
    hide RunFifo, Requests, Records, Responses, Scan, RingInv, HistoryInv, SampleInv;
    hide PipeInv;
    assert m.holder.Some? ==> m.holder.value in m.threads;
  }

  lemma {:induction false} SinceStays(store: seq<byte>, ids: set<nat>, schedule: seq<Action>, i: nat, k: nat)
    requires i <= |schedule| && Exec(Init(store, ids), schedule).Ran?
    ensures Exec(Init(store, ids), schedule[..i]).Ran?
    ensures var before, after := Exec(Init(store, ids), schedule[..i]).m, Exec(Init(store, ids), schedule).m;
            k < |before.since| ==> k < |after.since| && after.since[k] == before.since[k]
  {
    hide Do;
    var last := |schedule| - 1;
    if i == |schedule| {
      assert schedule[..i] == schedule;
    } else {
      assert schedule[..last][..i] == schedule[..i];
      SinceStays(store, ids, schedule[..last], i, k);
      if k < |Exec(Init(store, ids), schedule[..i]).m.since| {
        StepKeepsSince(Exec(Init(store, ids), schedule[..last]).m, schedule[last], k);
      }
    }
  }

  lemma StepKeepsSince(m: Machine, a: Action, k: nat)
    requires k < |m.since| && Do(m, a).Ran?
    ensures k < |Do(m, a).m.since| && Do(m, a).m.since[k] == m.since[k]
  {
    hide RunFifo, Requests, Records, Responses, CopyInFirst, CopyInSecond, SetState, LinearReadBytes, LinearWriteBytes;
    hide FirstStretch, SecondStretch, NReadBytes, NWriteBytes, Unheard, Committed;
  }

  /** The schedule that registers an event after `s1` and goes on with `s2`. */
  function Around(s1: seq<Action>, s2: seq<Action>): seq<Action> {
    s1 + [Register] + s2
  }

  /** What the registration after `s1` is to the machine at the end. */
  lemma RegisteredThere(store: seq<byte>, ids: set<nat>, s1: seq<Action>, s2: seq<Action>)
    requires Exec(Init(store, ids), Around(s1, s2)).Ran?
    ensures Exec(Init(store, ids), s1).Ran?
    ensures var k, m := Registered(s1), Exec(Init(store, ids), Around(s1, s2)).m;
            k < |m.pipes| == |m.since| == Registered(Around(s1, s2))
            && m.since[k] == Missed(Exec(Init(store, ids), s1).m)
  {
    hide Exec, Do, Inv, Missed;
    var s, i, k := Around(s1, s2), |s1| + 1, Registered(s1);
    assert s[..i] == s1 + [Register] && s[..i][..|s1|] == s1;
    SinceStays(store, ids, s, i, k);
    SinceStays(store, ids, s[..i], |s1|, k);
    ExecSnoc(Init(store, ids), s1, Register);
    EveryRunKeepsInv(store, ids, s1);
    EveryRunCountsPipes(store, ids, s1);
    NewPipe(Exec(Init(store, ids), s1).m, k);
    EveryRunCountsPipes(store, ids, s);
  }

  /** At any moment a pipe has received its records, but for one that is being reported. */
  lemma PipeAtAnyMoment(store: seq<byte>, ids: set<nat>, schedule: seq<Action>, k: nat)
    requires Exec(Init(store, ids), schedule).Ran?
    requires k < |Exec(Init(store, ids), schedule).m.pipes|
    ensures var m := Exec(Init(store, ids), schedule).m;
            var records := Records(|store|, m.history);
            |m.since| == |m.pipes| && m.since[k] + |m.pipes[k]| == |records| - Unheard(m, k)
            && m.pipes[k] == records[m.since[k]..m.since[k] + |m.pipes[k]|]
  {
    hide Records, RunFifo, Requests, Responses, Scan, RingInv, HistoryInv, MutexInv, SampleInv, Unheard;
    EveryRunKeepsInv(store, ids, schedule);
    StorageKeepsLength(store, ids, schedule);
    var m := Exec(Init(store, ids), schedule).m;
    var records := Records(|store|, m.history);
    assert PipeInv(m.pipes[k], m.since[k], |records| - Unheard(m, k), records);
  }

  /** Event protocol: an event registered after `s1` hears of every call that takes effect from then on, and of
      the one whose reports are not over yet; when no call is in progress, its pipe holds exactly their
      records, in the order in which they took effect. */
  lemma EventsHearEveryCall(store: seq<byte>, ids: set<nat>, s1: seq<Action>, s2: seq<Action>)
    requires Exec(Init(store, ids), Around(s1, s2)).Ran? && Exec(Init(store, ids), Around(s1, s2)).m.holder.None?
    ensures Exec(Init(store, ids), s1).Ran?
    ensures var k, m := Registered(s1), Exec(Init(store, ids), Around(s1, s2)).m;
            var missed := Missed(Exec(Init(store, ids), s1).m);
            k < |m.pipes| == Registered(Around(s1, s2))
            && 0 <= missed <= Committed(m.history) && m.pipes[k] == Records(|store|, m.history)[missed..]
  {
    hide Exec, Inv, Missed, Records, Requests, Around;
    RegisteredThere(store, ids, s1, s2);
    PipeAtAnyMoment(store, ids, Around(s1, s2), Registered(s1));
  }

  // ---- polling ----

  /** What the call numbered `i` reports. */
  function RecordOf(cap: nat, h: seq<Event>, i: nat): IoRecord
    requires i < Committed(h)
  {
    var q := RunFifo(cap, [], Requests(h)[..i + 1]).queue;
    IoRecord(WRITE, Responses(h)[i].count, |q|, cap - |q|)
  }

  /** A poller on the pipe of an event registered after `s1`, at any moment from then on: it picks the first
      call that the event hears of, in the order in which the calls took effect, whose count and queue size just
      after it satisfy the condition; the pipe holds the records of the calls since then in that order.  If it
      finds none while no call is in progress, no call since the registration satisfies it. */
  lemma PollerPicksFirstCall(
    store: seq<byte>, ids: set<nat>, s1: seq<Action>, s2: seq<Action>, cond: IoRecord -> bool)
    requires Exec(Init(store, ids), Around(s1, s2)).Ran?
    ensures Exec(Init(store, ids), s1).Ran?
    ensures var k, m := Registered(s1), Exec(Init(store, ids), Around(s1, s2)).m;
            var from := Missed(Exec(Init(store, ids), s1).m);
            k < |m.pipes| && 0 <= from && from + |m.pipes[k]| <= Committed(m.history)
            && Picks(|store|, m, m.pipes[k], from, FirstAccepted(cond, m.pipes[k]), cond)
  {
    hide Records, RunFifo, Requests, Responses, Exec, FirstAccepted, RecordOf, Missed, Around;
    RegisteredThere(store, ids, s1, s2);
    PipeAtAnyMoment(store, ids, Around(s1, s2), Registered(s1));
    var m := Exec(Init(store, ids), Around(s1, s2)).m;
    var from, pipe := m.since[Registered(s1)], m.pipes[Registered(s1)];
    forall i | from <= i < from + |pipe|
      ensures pipe[i - from] == RecordOf(|store|, m.history, i)
    {
      PipeHolds(|store|, m.history, pipe, from, i);
    }
    var j := FirstAccepted(cond, pipe);
    forall i | from <= i < from + j
      ensures !cond(RecordOf(|store|, m.history, i))
    {
      assert !cond(pipe[i - from]);
    }
  }

  /** The record at `j` of a pipe that starts with the call numbered `from` is the first one accepted. */
  ghost predicate Picks(cap: nat, m: Machine, pipe: seq<IoRecord>, from: nat, j: nat, cond: IoRecord -> bool)
    requires j <= |pipe| && from + |pipe| <= Committed(m.history)
  {
    && (forall i :: from <= i < from + |pipe| ==> pipe[i - from] == RecordOf(cap, m.history, i))
    && (forall i :: from <= i < from + j ==> !cond(RecordOf(cap, m.history, i)))
    && (j < |pipe| ==> cond(RecordOf(cap, m.history, from + j)))
    && (j == |pipe| && m.holder.None? ==>
          forall i :: from <= i < Committed(m.history) ==> !cond(RecordOf(cap, m.history, i)))
  }

  lemma PipeHolds(cap: nat, h: seq<Event>, pipe: seq<IoRecord>, from: nat, i: nat)
    requires from + |pipe| <= Committed(h) && pipe == Records(cap, h)[from..from + |pipe|]
    requires from <= i < from + |pipe|
    ensures pipe[i - from] == RecordOf(cap, h, i)
  {
    hide Records, RunFifo, Requests, Responses;
    RecordTellsItsCall(cap, h, i);
  }

  /** Pipes only grow, so whatever a poller picks in the middle of a schedule it would also pick at its end. */
  lemma {:induction false} PipesGrow(store: seq<byte>, ids: set<nat>, schedule: seq<Action>, i: nat, k: nat)
    requires i <= |schedule| && Exec(Init(store, ids), schedule).Ran?
    ensures Exec(Init(store, ids), schedule[..i]).Ran?
    ensures var before, after := Exec(Init(store, ids), schedule[..i]).m, Exec(Init(store, ids), schedule).m;
            k < |before.pipes| ==> k < |after.pipes| && before.pipes[k] <= after.pipes[k]
  {
    hide Do;
    var last := |schedule| - 1;
    if i == |schedule| {
      assert schedule[..i] == schedule;
    } else {
      assert schedule[..last][..i] == schedule[..i];
      PipesGrow(store, ids, schedule[..last], i, k);
      if k < |Exec(Init(store, ids), schedule[..i]).m.pipes| {
        StepGrowsPipes(Exec(Init(store, ids), schedule[..last]).m, schedule[last], k);
      }
    }
  }

  lemma StepGrowsPipes(m: Machine, a: Action, k: nat)
    requires k < |m.pipes| && Do(m, a).Ran?
    ensures k < |Do(m, a).m.pipes| && m.pipes[k] <= Do(m, a).m.pipes[k]
  {
    hide RunFifo, Requests, Records, Responses, CopyInFirst, CopyInSecond, SetState, LinearReadBytes, LinearWriteBytes;
    hide FirstStretch, SecondStretch, NReadBytes, NWriteBytes, Unheard, Committed;
  }

  lemma PollerPickStays(store: seq<byte>, ids: set<nat>, schedule: seq<Action>, i: nat, k: nat, cond: IoRecord -> bool)
    requires i <= |schedule| && Exec(Init(store, ids), schedule).Ran?
    requires Exec(Init(store, ids), schedule[..i]).Ran? && k < |Exec(Init(store, ids), schedule[..i]).m.pipes|
    requires var pipe := Exec(Init(store, ids), schedule[..i]).m.pipes[k]; FirstAccepted(cond, pipe) < |pipe|
    ensures k < |Exec(Init(store, ids), schedule).m.pipes|
    ensures FirstAccepted(cond, Exec(Init(store, ids), schedule).m.pipes[k]) ==
            FirstAccepted(cond, Exec(Init(store, ids), schedule[..i]).m.pipes[k])
  {
    hide Exec, FirstAccepted;
    PipesGrow(store, ids, schedule, i, k);
    PickStays(cond, Exec(Init(store, ids), schedule[..i]).m.pipes[k], Exec(Init(store, ids), schedule).m.pipes[k]);
  }

  /** `hm_poll_buffer` on such a pipe. */
  method PollMachine(
    e: HmEvent, ghost store: seq<byte>, ghost ids: set<nat>, ghost s1: seq<Action>, ghost s2: seq<Action>)
    returns (done: bool, ghost call: int)
    requires Exec(Init(store, ids), Around(s1, s2)).Ran?
    requires var k, m := Registered(s1), Exec(Init(store, ids), Around(s1, s2)).m; k < |m.pipes| && e.pipe == m.pipes[k]
    modifies e
    ensures Exec(Init(store, ids), s1).Ran?
    ensures var m, from := Exec(Init(store, ids), Around(s1, s2)).m, Missed(Exec(Init(store, ids), s1).m);
            && 0 <= from && from + |old(e.pipe)| <= Committed(m.history)
            && (done ==>
                  && from <= call < from + |old(e.pipe)| && e.cond(RecordOf(|store|, m.history, call))
                  && (forall i :: from <= i < call ==> !e.cond(RecordOf(|store|, m.history, i)))
                  && e.pipe == old(e.pipe)[call - from + 1..])
            && (!done && m.holder.None? ==>
                  e.pipe == [] &&
                  forall i :: from <= i < Committed(m.history) ==> !e.cond(RecordOf(|store|, m.history, i)))
  {
    hide Exec, FirstAccepted, RecordOf, Requests, Missed, Around;
    PollerPicksFirstCall(store, ids, s1, s2, e.cond);
    call := Missed(Exec(Init(store, ids), s1).m) + FirstAccepted(e.cond, e.pipe);
    done := PollBuffer(e);
  }
}
