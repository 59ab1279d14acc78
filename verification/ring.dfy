/** The ring implementation of a buffer (src/core/buffer.c), on values.  Pointers into the storage are
    offsets from its start.  Each step that `_rbuf_write` and `_rbuf_read` take while they hold the
    mutex is a function of its own, so that the concurrent model can stop between any two of them. */
module Ring {
  import opened Bytes
  import opened Fifo

  datatype State = NORMAL | EMPTY | FULL

  datatype Buf = Buf(store: seq<byte>, rpos: nat, wpos: nat, state: State)

  datatype Mode = ReadMode | WriteMode

  /** The shape of a ring between two operations: both offsets lie inside the storage, and the state
      field is NORMAL exactly when the offsets tell the contents on their own. */
  ghost predicate Valid(b: Buf) {
    && (b.rpos < |b.store| || b.rpos == |b.store| == 0)
    && (b.wpos < |b.store| || b.wpos == |b.store| == 0)
    && (b.state.NORMAL? <==> b.rpos != b.wpos)
  }

  /** The queued bytes, oldest first. */
  function Queue(b: Buf): seq<byte>
    requires b.rpos <= |b.store| && b.wpos <= |b.store|
  {
    if b.state.EMPTY? then []
    else if b.rpos < b.wpos then b.store[b.rpos..b.wpos]
    else b.store[b.rpos..] + b.store[..b.wpos]
  }

  /** What `_rbuf_n_write_bytes` computes from the two pointers alone. */
  function PointerGap(b: Buf): int
    requires |b.store| > 0
  {
    var diff := CRem(b.rpos - b.wpos, |b.store|);
    if diff < 0 then diff + |b.store| else diff
  }

  function NWriteBytes(b: Buf): int
    requires b.state.NORMAL? ==> |b.store| > 0
  {
    match b.state
    case EMPTY => |b.store|
    case FULL => 0
    case NORMAL => PointerGap(b)
  }

  function NReadBytes(b: Buf): int
    requires b.state.NORMAL? ==> |b.store| > 0
  {
    |b.store| - NWriteBytes(b)
  }

  function LinearWriteBytes(b: Buf): int {
    match b.state
    case FULL => 0
    case EMPTY => |b.store| - b.wpos
    case NORMAL => if b.wpos < b.rpos then b.rpos - b.wpos else |b.store| - b.wpos
  }

  function LinearReadBytes(b: Buf): int {
    match b.state
    case FULL => |b.store| - b.rpos
    case EMPTY => 0
    case NORMAL => if b.rpos < b.wpos then b.wpos - b.rpos else |b.store| - b.rpos
  }

  // ---- the steps of _rbuf_write, for n clamped bytes of which lin fit before the end ----

  function CopyInFirst(b: Buf, data: seq<byte>, n: nat, lin: nat): Buf
    requires n <= |data| && b.wpos + Min(n, lin) <= |b.store|
  {
    b.(store := Overlay(b.store, b.wpos, data[..Min(n, lin)]))
  }

  function CopyInSecond(b: Buf, data: seq<byte>, n: nat, lin: nat): Buf
    requires n <= |data| && n - lin <= |b.store|
  {
    if n > lin then b.(store := Overlay(b.store, 0, data[lin..n])) else b
  }

  function MoveWrite(b: Buf, n: nat, lin: nat): Buf {
    b.(wpos := if n > lin then n - lin else b.wpos + n)
  }

  // ---- the steps of _rbuf_read ----

  /** Of `n` bytes of the storage from `at` on, those before the end, of which there are `lin`, and those that
      follow from the start. */
  function FirstStretch(store: seq<byte>, at: nat, n: nat, lin: nat): seq<byte>
    requires at + Min(n, lin) <= |store|
  {
    store[at..at + Min(n, lin)]
  }

  function SecondStretch(store: seq<byte>, n: nat, lin: nat): seq<byte>
    requires n - lin <= |store|
  {
    if n > lin then store[..n - lin] else []
  }

  function Stretches(store: seq<byte>, at: nat, n: nat, lin: nat): (r: seq<byte>)
    requires at + Min(n, lin) <= |store| && n - lin <= |store|
    ensures |r| == n
  {
    FirstStretch(store, at, n, lin) + SecondStretch(store, n, lin)
  }

  lemma OneStretch(store: seq<byte>, at: nat, n: nat, lin: nat)
    requires n <= lin && at + n <= |store|
    ensures Stretches(store, at, n, lin) == store[at..at + n]
  {
  }

  lemma TwoStretches(store: seq<byte>, at: nat, n: nat, lin: nat)
    requires lin < n <= lin + |store| && at + lin <= |store|
    ensures Stretches(store, at, n, lin) == store[at..at + lin] + store[0..n - lin]
  {
    assert store[0..n - lin] == store[..n - lin];
  }

  function MoveRead(b: Buf, n: nat, lin: nat): Buf {
    b.(rpos := if n > lin then n - lin else b.rpos + n)
  }

  /** `_set_rbuf_state`: wrap the pointers and decide between EMPTY and FULL by who moved last. */
  function SetState(b: Buf, mode: Mode): Buf {
    var r := if b.rpos >= |b.store| then b.rpos - |b.store| else b.rpos;
    var w := if b.wpos >= |b.store| then b.wpos - |b.store| else b.wpos;
    b.(rpos := r, wpos := w,
       state := if r != w then NORMAL else if mode.ReadMode? then EMPTY else FULL)
  }

  // ---- one whole locked call ----

  /** The clamped byte count of a request. */
  function Clamp(b: Buf, r: Request): nat
    requires Valid(b)
  {
    CountsAgree(b);
    match r
    case Write(data) => Min(|data|, NWriteBytes(b))
    case Read(n, _) => Min(n, NReadBytes(b))
  }

  /** The bytes the clamped request can move before it meets the end of the storage or the other pointer. */
  function Linear(b: Buf, r: Request): nat
    requires Valid(b)
  {
    if r.Write? then LinearWriteBytes(b) else LinearReadBytes(b)
  }

  function AfterFirst(b: Buf, r: Request): (b': Buf)
    requires Valid(b)
    ensures |b'.store| == |b.store|
  {
    CountsAgree(b);
    if r.Write? then CopyInFirst(b, r.data, Clamp(b, r), Linear(b, r)) else b
  }

  function AfterSecond(b: Buf, r: Request): (b': Buf)
    requires Valid(b)
    ensures |b'.store| == |b.store|
  {
    CountsAgree(b);
    if r.Write? then CopyInSecond(AfterFirst(b, r), r.data, Clamp(b, r), Linear(b, r)) else b
  }

  function AfterMove(b: Buf, r: Request): (b': Buf)
    requires Valid(b)
    ensures |b'.store| == |b.store|
  {
    if r.Write? then MoveWrite(AfterSecond(b, r), Clamp(b, r), Linear(b, r))
    else MoveRead(b, Clamp(b, r), Linear(b, r))
  }

  function After(b: Buf, r: Request): (b': Buf)
    requires Valid(b)
    ensures |b'.store| == |b.store|
  {
    SetState(AfterMove(b, r), if r.Write? then WriteMode else ReadMode)
  }

  /** The bytes a read with a destination has delivered after the first copy, and after both. */
  function DeliveredFirst(b: Buf, r: Request): seq<byte>
    requires Valid(b)
  {
    CountsAgree(b);
    if r.Read? && r.keep then FirstStretch(b.store, b.rpos, Clamp(b, r), Linear(b, r)) else []
  }

  function Delivered(b: Buf, r: Request): seq<byte>
    requires Valid(b)
  {
    CountsAgree(b);
    if r.Read? && r.keep then DeliveredFirst(b, r) + SecondStretch(b.store, Clamp(b, r), Linear(b, r)) else []
  }

  // ---- what the pieces mean ----

  /** The pointer and state arithmetic counts the queue, and the stretch that can be moved in one copy
      is bounded by it, by the end of the storage, and leaves a rest that fits at the start. */
  lemma CountsAgree(b: Buf)
    requires Valid(b)
    ensures NReadBytes(b) == |Queue(b)| && NWriteBytes(b) == |b.store| - |Queue(b)|
    ensures 0 <= NWriteBytes(b) <= |b.store|
    ensures 0 <= LinearWriteBytes(b) <= NWriteBytes(b) && b.wpos + LinearWriteBytes(b) <= |b.store|
    ensures 0 <= LinearReadBytes(b) <= NReadBytes(b) && b.rpos + LinearReadBytes(b) <= |b.store|
    ensures LinearWriteBytes(b) < NWriteBytes(b) ==> b.wpos + LinearWriteBytes(b) == |b.store|
    ensures LinearReadBytes(b) < NReadBytes(b) ==> b.rpos + LinearReadBytes(b) == |b.store|
  {
    if b.state.NORMAL? {
      GapIsModular(b);
    }
  }

  /** For offsets anywhere in the storage, its end included, C's truncating `%` and the correction
      after it amount to one wrap. */
  lemma GapIsModular(b: Buf)
    requires |b.store| > 0 && b.rpos <= |b.store| && b.wpos <= |b.store|
    ensures var d := b.rpos - b.wpos;
            PointerGap(b) == if d == |b.store| || d == -|b.store| then 0 else if d < 0 then d + |b.store| else d
  {
    CRemWithinOneTurn(b.rpos - b.wpos, |b.store|);
  }

  lemma ClampIsMoved(b: Buf, r: Request)
    requires Valid(b)
    ensures Clamp(b, r) == Moved(|b.store|, Queue(b), r)
  {
    CountsAgree(b);
  }

  lemma WriteKeepsValid(b: Buf, r: Request)
    requires Valid(b) && r.Write? && Size(r) > 0
    ensures Valid(After(b, r))
  {
    CountsAgree(b);
  }

  lemma ReadKeepsValid(b: Buf, r: Request)
    requires Valid(b) && r.Read? && Size(r) > 0
    ensures Valid(After(b, r))
  {
    CountsAgree(b);
  }

  /** The storage position `i` bytes after `from`, past the end going on at the start. */
  function Wrap(b: Buf, from: nat, i: nat): nat
    requires from <= |b.store| && i <= |b.store|
  {
    if from + i < |b.store| then from + i else from + i - |b.store|
  }

  lemma QueueAt(b: Buf, i: nat)
    requires Valid(b) && i < |Queue(b)|
    ensures |Queue(b)| <= |b.store| && Queue(b)[i] == b.store[Wrap(b, b.rpos, i)]
  {
  }

  /** The two copies of a write, byte by byte. */
  lemma CopiedAt(b: Buf, data: seq<byte>, n: nat, lin: nat, p: nat)
    requires n <= |data| && b.wpos + Min(n, lin) <= |b.store| && n - lin <= b.wpos && p < |b.store|
    ensures CopyInSecond(CopyInFirst(b, data, n, lin), data, n, lin).store[p] ==
            if b.wpos <= p < b.wpos + Min(n, lin) then data[p - b.wpos]
            else if p < n - lin then data[lin + p]
            else b.store[p]
  {
    if n > lin {
      assert data[lin..n][..n - lin] == data[lin..n];
    }
  }

  /** Where the byte `i` of the queue is, or will be once `n` bytes are written behind it. */
  lemma Whereabouts(b: Buf, i: nat, n: nat, lin: nat)
    requires Valid(b) && n <= NWriteBytes(b) && lin == LinearWriteBytes(b) && i < |Queue(b)| + n
    ensures |Queue(b)| + n <= |b.store| && n - lin <= b.wpos
    ensures i < |Queue(b)| ==>
              var p := Wrap(b, b.rpos, i); n - lin <= p && !(b.wpos <= p < b.wpos + Min(n, lin))
    ensures i >= |Queue(b)| ==>
              var j := i - |Queue(b)|; Wrap(b, b.rpos, i) == if j < lin then b.wpos + j else j - lin
  {
    CountsAgree(b);
  }

  /** The two copies of a write put its bytes right behind the queue and leave the queued bytes alone. */
  lemma CopiesLandBehindTheQueue(b: Buf, r: Request, i: nat)
    requires Valid(b) && r.Write? && i < |Queue(b)| + Clamp(b, r)
    ensures |Queue(b)| + Clamp(b, r) <= |b.store|
    ensures AfterSecond(b, r).store[Wrap(b, b.rpos, i)] ==
            if i < |Queue(b)| then b.store[Wrap(b, b.rpos, i)] else r.data[i - |Queue(b)|]
  {
    hide Queue, NReadBytes, NWriteBytes, LinearReadBytes, LinearWriteBytes, CopyInFirst, CopyInSecond;
    CountsAgree(b);
    Whereabouts(b, i, Clamp(b, r), Linear(b, r));
    CopiedAt(b, r.data, Clamp(b, r), Linear(b, r), Wrap(b, b.rpos, i));
  }

  lemma WriteKeepsTheRest(b: Buf, r: Request)
    requires Valid(b) && r.Write?
    ensures After(b, r).store == AfterSecond(b, r).store && After(b, r).rpos == b.rpos
  {
  }

  /** The queue `q'` of a ring that starts where `b` starts, once its storage is known byte by byte. */
  lemma AppendedAt(b: Buf, b': Buf, data: seq<byte>, i: nat)
    requires Valid(b) && Valid(b') && |b'.store| == |b.store| && b'.rpos == b.rpos
    requires |Queue(b')| == |Queue(b)| + |data| && i < |Queue(b')|
    requires |Queue(b')| <= |b.store|
    requires b'.store[Wrap(b, b.rpos, i)] ==
             if i < |Queue(b)| then b.store[Wrap(b, b.rpos, i)] else data[i - |Queue(b)|]
    ensures Queue(b')[i] == (Queue(b) + data)[i]
  {
    QueueAt(b', i);
    if i < |Queue(b)| {
      QueueAt(b, i);
    }
  }

  lemma WriteAppends(b: Buf, r: Request)
    requires Valid(b) && r.Write? && Size(r) > 0
    ensures Queue(After(b, r)) == Queue(b) + r.data[..Clamp(b, r)]
  {
    WriteKeepsValid(b, r);
    WriteCounts(b, r);
    WriteKeepsTheRest(b, r);
    var b' := After(b, r);
    var data := r.data[..Clamp(b, r)];
    forall i | 0 <= i < |Queue(b')|
      ensures Queue(b')[i] == (Queue(b) + data)[i]
    {
      CopiesLandBehindTheQueue(b, r, i);
      AppendedAt(b, b', data, i);
    }
  }

  lemma WriteCounts(b: Buf, r: Request)
    requires Valid(b) && r.Write? && Size(r) > 0
    ensures |Queue(After(b, r))| == |Queue(b)| + Clamp(b, r)
  {
    CountsAgree(b);
  }

  lemma ReadCounts(b: Buf, r: Request)
    requires Valid(b) && r.Read? && Size(r) > 0
    ensures |Queue(After(b, r))| == |Queue(b)| - Clamp(b, r)
  {
    CountsAgree(b);
  }

  /** A read leaves the storage alone and moves the start of the queue on. */
  lemma ReadMovesOn(b: Buf, r: Request, i: nat)
    requires Valid(b) && r.Read? && Size(r) > 0 && Clamp(b, r) + i < |Queue(b)|
    ensures |Queue(b)| <= |b.store| && After(b, r).store == b.store && After(b, r).rpos <= |b.store|
    ensures Wrap(After(b, r), After(b, r).rpos, i) == Wrap(b, b.rpos, Clamp(b, r) + i)
  {
    CountsAgree(b);
  }

  lemma ReadRemoves(b: Buf, r: Request)
    requires Valid(b) && r.Read? && Size(r) > 0
    ensures Clamp(b, r) <= |Queue(b)| && Queue(After(b, r)) == Queue(b)[Clamp(b, r)..]
  {
    hide Queue, After, Clamp;
    var b' := After(b, r);
    ReadKeepsValid(b, r);
    ReadCounts(b, r);
    forall i | 0 <= i < |Queue(b')|
      ensures Queue(b')[i] == Queue(b)[Clamp(b, r)..][i]
    {
      ReadMovesOn(b, r, i);
      QueueAt(b', i);
      QueueAt(b, Clamp(b, r) + i);
    }
  }

  lemma ReadDelivers(b: Buf, r: Request)
    requires Valid(b) && r.Read? && r.keep
    ensures Clamp(b, r) <= |Queue(b)| && Delivered(b, r) == Queue(b)[..Clamp(b, r)]
  {
    CountsAgree(b);
  }

  /** One locked call of the ring is one step of the bounded queue. */
  lemma CallRefinesFifo(b: Buf, r: Request)
    requires Valid(b) && Size(r) > 0
    ensures Valid(After(b, r)) && |Queue(b)| <= |b.store|
    ensures Queue(After(b, r)) == Next(|b.store|, Queue(b), r)
    ensures Response(Clamp(b, r), Delivered(b, r)) == Answer(|b.store|, Queue(b), r)
  {
    CountsAgree(b);
    ClampIsMoved(b, r);
    if r.Write? {
      WriteKeepsValid(b, r);
      WriteAppends(b, r);
    } else {
      ReadKeepsValid(b, r);
      ReadRemoves(b, r);
      if r.keep {
        ReadDelivers(b, r);
      }
    }
  }

  /** From the moment a call moves its pointer, and before the pointer is wrapped and the state field
      brought up to date, the two pointers already tell the new number of free bytes up to whole turns. */
  lemma GapAfterMove(b: Buf, r: Request)
    requires Valid(b) && Size(r) > 0 && |b.store| > 0
    ensures |Queue(b)| <= |b.store|
    ensures AfterMove(b, r).rpos <= |b.store| && AfterMove(b, r).wpos <= |b.store|
    ensures PointerGap(AfterMove(b, r)) == (|b.store| - |Next(|b.store|, Queue(b), r)|) % |b.store|
  {
    CountsAgree(b);
    MoveStaysInStorage(b, r);
    CallRefinesFifo(b, r);
    GapBetweenCalls(After(b, r));
    GapIgnoresWrap(AfterMove(b, r), if r.Write? then WriteMode else ReadMode);
  }

  lemma MoveStaysInStorage(b: Buf, r: Request)
    requires Valid(b)
    ensures AfterMove(b, r).rpos <= |b.store| && AfterMove(b, r).wpos <= |b.store|
  {
    CountsAgree(b);
  }

  lemma GapIgnoresWrap(b: Buf, mode: Mode)
    requires |b.store| > 0 && b.rpos <= |b.store| && b.wpos <= |b.store|
    ensures PointerGap(SetState(b, mode)) == PointerGap(b)
  {
    GapIsModular(b);
    GapIsModular(SetState(b, mode));
  }

  lemma GapBetweenCalls(b: Buf)
    requires Valid(b) && |b.store| > 0
    ensures PointerGap(b) == (|b.store| - |Queue(b)|) % |b.store|
  {
    CountsAgree(b);
    GapIsModular(b);
    ModWithinOneTurn(|b.store| - |Queue(b)|, |b.store|);
  }

  /** Both copies of a call stay inside the storage and inside the caller's bytes. */
  lemma CopiesStayInside(b: Buf, r: Request)
    requires Valid(b)
    ensures Clamp(b, r) <= Size(r) && Clamp(b, r) - Linear(b, r) <= |b.store|
    ensures r.Write? ==> b.wpos + Min(Clamp(b, r), Linear(b, r)) <= |b.store|
    ensures r.Read? ==> b.rpos + Min(Clamp(b, r), Linear(b, r)) <= |b.store|
  {
    CountsAgree(b);
  }

  /** Copies and moves leave the state field alone; it says NORMAL only in a ring with storage. */
  lemma StateDuringCall(b: Buf, r: Request)
    requires Valid(b) && Size(r) > 0
    ensures AfterFirst(b, r).state == AfterSecond(b, r).state == AfterMove(b, r).state == b.state
    ensures b.state.NORMAL? || After(b, r).state.NORMAL? ==> |b.store| > 0
  {
    CallRefinesFifo(b, r);
  }

  // ---- whole runs ----

  /** `_rbuf_write` or `_rbuf_read`: a request for no bytes returns before the mutex is taken. */
  function Call(b: Buf, r: Request): (b': Buf)
    requires Valid(b)
    ensures Valid(b')
  {
    if Size(r) == 0 then b
    else
      CallRefinesFifo(b, r);
      After(b, r)
  }

  function Reply(b: Buf, r: Request): Response
    requires Valid(b)
  {
    if Size(r) == 0 then Response(0, []) else Response(Clamp(b, r), Delivered(b, r))
  }

  lemma CallRefines(b: Buf, r: Request)
    requires Valid(b)
    ensures |Call(b, r).store| == |b.store| && |Queue(b)| <= |b.store|
    ensures Queue(Call(b, r)) == Next(|b.store|, Queue(b), r)
    ensures Reply(b, r) == Answer(|b.store|, Queue(b), r)
  {
    CountsAgree(b);
    if Size(r) > 0 {
      CallRefinesFifo(b, r);
    }
  }

  datatype BufRun = BufRun(buf: Buf, responses: seq<Response>)

  function RunRing(b: Buf, rs: seq<Request>): (run: BufRun)
    requires Valid(b)
    ensures Valid(run.buf)
  {
    if rs == [] then BufRun(b, [])
    else
      var before := RunRing(b, rs[..|rs| - 1]);
      var r := rs[|rs| - 1];
      CallRefines(before.buf, r);
      BufRun(Call(before.buf, r), before.responses + [Reply(before.buf, r)])
  }

  /** Every run of the ring, wrapped copies included, answers as the bounded queue does. */
  lemma {:induction false} RunRefinesFifo(b: Buf, rs: seq<Request>)
    requires Valid(b)
    ensures |Queue(b)| <= |b.store| && |RunRing(b, rs).buf.store| == |b.store|
    ensures RunRing(b, rs).responses == RunFifo(|b.store|, Queue(b), rs).responses
    ensures Queue(RunRing(b, rs).buf) == RunFifo(|b.store|, Queue(b), rs).queue
  {
    CountsAgree(b);
    if rs != [] {
      RunRefinesFifo(b, rs[..|rs| - 1]);
      CallRefines(RunRing(b, rs[..|rs| - 1]).buf, rs[|rs| - 1]);
    }
  }

  /** Over every run of writes, reads and discards, split copies included: the bytes put in are the bytes
      taken out followed by the bytes still queued. */
  lemma RingConservesBytes(b: Buf, rs: seq<Request>)
    requires Valid(b)
    ensures |RunRing(b, rs).responses| == |rs|
    ensures var run := RunRing(b, rs);
            var stream := Stream(Queue(b), rs, run.responses);
            var taken := TakenCount(rs, run.responses);
            taken <= |stream| && Queue(run.buf) == stream[taken..]
  {
    hide Queue, RunFifo, RunRing, Stream, TakenCount;
    RunRefinesFifo(b, rs);
    Conservation(|b.store|, Queue(b), rs);
  }

  /** ... and each read gets the stretch of them that starts where the reads before it ended. */
  lemma RingDeliversTheStream(b: Buf, rs: seq<Request>, i: nat)
    requires Valid(b) && i < |rs| && rs[i].Read? && rs[i].keep
    ensures |RunRing(b, rs).responses| == |rs|
    ensures var answers := RunRing(b, rs).responses;
            var stream := Stream(Queue(b), rs, answers);
            var from := TakenCount(rs[..i], answers[..i]);
            from + answers[i].count <= |stream|
            && answers[i].bytes == stream[from..from + answers[i].count]
  {
    hide Queue, RunFifo, RunRing, Stream, TakenCount;
    RunRefinesFifo(b, rs);
    ReadsDeliverTheStream(|b.store|, Queue(b), rs, i);
  }

  // ---- buffer_view ----

  /** The bytes a view copies out, or the fact that it would copy from outside the storage. */
  datatype Viewed = Bytes(bytes: seq<byte>) | OutOfStorage

  /** Subtraction of C's `unsigned int`. */
  function UintSub(a: nat, b: nat): (d: nat)
    requires a < UINT_RANGE && b < UINT_RANGE
    ensures d == if b <= a then a - b else a - b + UINT_RANGE
  {
    (a - b) % UINT_RANGE
  }

  /** The copies a view makes: `count` bytes from `at` on, going on at the start after `linear` bytes. */
  function ViewCopies(store: seq<byte>, at: nat, linear: nat, count: nat): Viewed {
    if count == 0 then Bytes([])
    else if at + Min(count, linear) <= |store| && count - linear <= |store| then
      Bytes(Stretches(store, at, count, linear))
    else OutOfStorage
  }

  /** `buffer_view` on a ring. */
  function View(b: Buf, offset: nat, n: nat): Viewed
    requires Valid(b) && |b.store| < UINT_RANGE && offset < UINT_RANGE
  {
    CountsAgree(b);
    ViewCopies(b.store, b.rpos + offset, UintSub(LinearReadBytes(b), offset), Min(n, NReadBytes(b)))
  }

  /** The queue is its stretch before the wrap followed by the rest at the start of the storage. */
  lemma QueueSplits(b: Buf, q: seq<byte>, linear: int)
    requires Valid(b) && q == Queue(b) && linear == LinearReadBytes(b)
    ensures 0 <= linear <= |q| <= |b.store| && b.rpos + linear <= |b.store|
    ensures q == b.store[b.rpos..b.rpos + linear] + b.store[..|q| - linear]
  {
    CountsAgree(b);
  }

  lemma CopiesInOne(store: seq<byte>, at: nat, linear: nat, count: nat)
    requires count <= linear && at + count <= |store|
    ensures ViewCopies(store, at, linear, count) == Bytes(store[at..at + count])
  {
    OneStretch(store, at, count, linear);
  }

  lemma CopiesInTwo(store: seq<byte>, at: nat, linear: nat, count: nat)
    requires linear < count <= linear + |store| && at + linear <= |store|
    ensures ViewCopies(store, at, linear, count) == Bytes(store[at..at + linear] + store[..count - linear])
  {
    TwoStretches(store, at, count, linear);
    assert store[0..count - linear] == store[..count - linear];
  }

  /** The copies take a slice of a queue made of two stretches of the storage. */
  lemma CopiesOfStretches(store: seq<byte>, rpos: nat, linear: nat, q: seq<byte>, offset: nat, count: nat)
    requires rpos + linear <= |store| && linear <= |q| <= linear + |store|
    requires offset <= linear && offset + count <= |q|
    requires q == store[rpos..rpos + linear] + store[..|q| - linear]
    ensures ViewCopies(store, rpos + offset, linear - offset, count) == Bytes(q[offset..offset + count])
  {
    hide ViewCopies;
    var rest := |q| - linear;
    SliceConcat(store[rpos..rpos + linear], store[..rest], offset, count);
    if count > linear - offset {
      CopiesInTwo(store, rpos + offset, linear - offset, count);
      SliceSlice(store, rpos, rpos + linear, offset, linear);
      SliceSlice(store, 0, rest, 0, count - (linear - offset));
    } else {
      CopiesInOne(store, rpos + offset, linear - offset, count);
      SliceSlice(store, rpos, rpos + linear, offset, offset + count);
    }
  }

  lemma ViewIsCopies(b: Buf, linear: nat, offset: nat, n: nat, count: nat)
    requires Valid(b) && |b.store| < UINT_RANGE && offset < UINT_RANGE
    requires offset <= linear == LinearReadBytes(b) && count == Min(n, NReadBytes(b))
    ensures View(b, offset, n) == ViewCopies(b.store, b.rpos + offset, linear - offset, count)
  {
    CountsAgree(b);
  }

  lemma ViewBeforeTheWrap(b: Buf, q: seq<byte>, linear: nat, offset: nat, n: nat, count: nat)
    requires Valid(b) && |b.store| < UINT_RANGE && offset < UINT_RANGE && q == Queue(b)
    requires offset <= linear == LinearReadBytes(b) && count == Min(n, NReadBytes(b)) && offset + count <= |q|
    ensures View(b, offset, n) == Bytes(q[offset..offset + count])
  {
    hide Queue, View, ViewCopies;
    QueueSplits(b, q, linear);
    ViewIsCopies(b, linear, offset, n, count);
    CopiesOfStretches(b.store, b.rpos, linear, q, offset, count);
  }

  /** The bytes a view asks for are queued and it returns them. */
  predicate ShowsQueue(b: Buf, offset: nat, n: nat)
    requires Valid(b) && |b.store| < UINT_RANGE && offset < UINT_RANGE
  {
    var q := Queue(b);
    var count := Min(n, |q|);
    offset + count <= |q| && View(b, offset, n) == Bytes(q[offset..offset + count])
  }

  /** For every offset and size: a view leaves the storage if and only if it starts beyond the first stretch of
      the queue, the one before the wrap, and has not ended by the end of the storage; and it shows the queue if
      and only if its bytes are all queued and it starts in the first stretch. */
  lemma ViewIsExactBeforeTheWrap(b: Buf, offset: nat, n: nat)
    requires Valid(b) && |b.store| < UINT_RANGE && offset < UINT_RANGE
    ensures var count := Min(n, |Queue(b)|);
            && (View(b, offset, n).OutOfStorage? <==>
                  count > 0 && offset > LinearReadBytes(b) && b.rpos + offset + count > |b.store|)
            && (ShowsQueue(b, offset, n) <==>
                  offset + count <= |Queue(b)| && (offset <= LinearReadBytes(b) || count == 0))
    ensures !View(b, offset, n).OutOfStorage? ==>
              (ShowsQueue(b, offset, n) <==> offset + Min(n, |Queue(b)|) <= |Queue(b)|)
  {
    hide Queue, View, LinearReadBytes, NReadBytes, LinearWriteBytes, NWriteBytes;
    CountsAgree(b);
    var q, linear: nat, count: nat := Queue(b), LinearReadBytes(b), Min(n, |Queue(b)|);
    if count == 0 {
      ViewNothing(b, offset, n);
      assert offset <= |q| ==> q[offset..offset] == [];
    } else if offset > linear {
      ViewBeyondTheWrap(b, offset, n, linear, count);
    } else if offset + count <= |q| {
      ViewBeforeTheWrap(b, q, linear, offset, n, count);
    } else {
      ViewPastTheQueue(b, q, linear, offset, n, count);
    }
  }

  lemma ViewNothing(b: Buf, offset: nat, n: nat)
    requires Valid(b) && |b.store| < UINT_RANGE && offset < UINT_RANGE && Min(n, NReadBytes(b)) == 0
    ensures View(b, offset, n) == Bytes([])
  {
  }

  /** Beyond the first stretch, the copy is one piece of the storage behind the queue, or leaves it. */
  lemma ViewBeyondTheWrap(b: Buf, offset: nat, n: nat, linear: nat, count: nat)
    requires Valid(b) && |b.store| < UINT_RANGE && linear < offset < UINT_RANGE
    requires linear == LinearReadBytes(b) && 0 < count == Min(n, NReadBytes(b))
    ensures b.rpos + offset + count > |b.store| ==> View(b, offset, n).OutOfStorage?
    ensures b.rpos + offset + count <= |b.store| ==>
              View(b, offset, n) == Bytes(b.store[b.rpos + offset..b.rpos + offset + count])
              && linear == NReadBytes(b)
  {
    CountsAgree(b);
    assert b.rpos + offset + count <= |b.store| ==> count <= UintSub(linear, offset);
  }

  /** Past the end of the queue, a view that starts in the first stretch goes on where the second one ends, or
      at the start of the storage if there is none. */
  lemma ViewPastTheQueue(b: Buf, q: seq<byte>, linear: nat, offset: nat, n: nat, count: nat)
    requires Valid(b) && |b.store| < UINT_RANGE && offset < UINT_RANGE && q == Queue(b)
    requires offset <= linear == LinearReadBytes(b) && count == Min(n, NReadBytes(b)) && |q| < offset + count
    ensures linear <= |q| && count - linear + offset <= |b.store|
    ensures View(b, offset, n) == Bytes(q[offset..] + b.store[|q| - linear..count - linear + offset])
  {
    hide Queue, View, ViewCopies;
    QueueSplits(b, q, linear);
    CountsAgree(b);
    ViewIsCopies(b, linear, offset, n, count);
    CopiesPastTheQueue(b.store, b.rpos, linear, q, offset, count);
  }

  lemma CopiesPastTheQueue(store: seq<byte>, rpos: nat, linear: nat, q: seq<byte>, offset: nat, count: nat)
    requires rpos + linear <= |store| && linear <= |q| <= |store| && offset <= linear
    requires count <= |q| < offset + count && q == store[rpos..rpos + linear] + store[..|q| - linear]
    ensures ViewCopies(store, rpos + offset, linear - offset, count) ==
            Bytes(q[offset..] + store[|q| - linear..count - linear + offset])
  {
    hide ViewCopies;
    var rest := count - (linear - offset);
    var x, y, z := store[rpos + offset..rpos + linear], store[..|q| - linear], store[|q| - linear..rest];
    assert ViewCopies(store, rpos + offset, linear - offset, count) == Bytes(x + store[..rest]) by {
      CopiesInTwo(store, rpos + offset, linear - offset, count);
    }
    assert store[..rest] == y + z by { SplitsAt(store, |q| - linear, rest); }
    assert q[offset..] == x + y by { RestOfStretches(store, rpos, linear, q, offset); }
    assert x + (y + z) == x + y + z by { Regroup(x, y, z); }
  }

  lemma RestOfStretches(store: seq<byte>, rpos: nat, linear: nat, q: seq<byte>, offset: nat)
    requires rpos + linear <= |store| && linear <= |q| <= |store| && offset <= linear
    requires q == store[rpos..rpos + linear] + store[..|q| - linear]
    ensures q[offset..] == store[rpos + offset..rpos + linear] + store[..|q| - linear]
  {
    DropAppend(store[rpos..rpos + linear], store[..|q| - linear], offset);
    SliceSlice(store, rpos, rpos + linear, offset, linear);
  }

  /** The queue 7, 8, 9 with its first byte at the end of the storage: viewing the last byte leaves it.  The same
      queue at its start: viewing three bytes from the second on gives the first one again. */
  lemma ViewBeyondTheWrapFails()
    ensures var b := Buf([8, 9, 0, 7], 3, 2, NORMAL);
            Valid(b) && Queue(b) == [7, 8, 9] && View(b, 2, 1).OutOfStorage?
    ensures var b := Buf([7, 8, 9, 0], 0, 3, NORMAL);
            Valid(b) && Queue(b) == [7, 8, 9] && View(b, 1, 3) == Bytes([8, 9, 7])
  {
    ViewIsExactBeforeTheWrap(Buf([8, 9, 0, 7], 3, 2, NORMAL), 2, 1);
    var b := Buf([7, 8, 9, 0], 0, 3, NORMAL);
    assert LinearReadBytes(b) == 3 && Queue(b) == [7, 8, 9];
    ViewPastTheQueue(b, [7, 8, 9], 3, 1, 3, 3);
    assert [7, 8, 9][1..] + b.store[0..1] == [8, 9, 7];
  }

  lemma PeekFront(b: Buf, q: seq<byte>, n: nat)
    requires Valid(b) && |b.store| < UINT_RANGE && q == Queue(b)
    ensures View(b, 0, n) == Bytes(q[..Min(n, |q|)])
  {
    CountsAgree(b);
    ViewIsExactBeforeTheWrap(b, 0, n);
    assert q[0..Min(n, |q|)] == q[..Min(n, |q|)];
  }

  lemma ReadFront(b: Buf, q: seq<byte>, n: nat)
    requires Valid(b) && q == Queue(b)
    ensures Reply(b, Read(n, true)) == Response(Min(n, |q|), q[..Min(n, |q|)])
  {
    CallRefines(b, Read(n, true));
  }

  /** Peeking at the front of the queue and then reading deliver the same bytes. */
  lemma PeekThenRead(b: Buf, n: nat)
    requires Valid(b) && |b.store| < UINT_RANGE
    ensures View(b, 0, n) == Bytes(Reply(b, Read(n, true)).bytes)
  {
    PeekFront(b, Queue(b), n);
    ReadFront(b, Queue(b), n);
  }
}
