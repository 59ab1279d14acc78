/** The linear implementation of a buffer (src/core/buffer.c), on values, and where it agrees with the
    ring. */
module Linear {
  import opened Bytes
  import opened Fifo
  import opened Ring

  /** The shape of a linear buffer between two operations: drained means reset. */
  ghost predicate LinearValid(b: Buf) {
    && b.rpos <= b.wpos <= |b.store|
    && (b.rpos == b.wpos ==> b.rpos == 0 && b.state.EMPTY?)
    && (b.rpos < b.wpos ==> b.state == if b.wpos == |b.store| then FULL else NORMAL)
  }

  function LinearQueue(b: Buf): seq<byte>
    requires b.rpos <= b.wpos <= |b.store|
  {
    b.store[b.rpos..b.wpos]
  }

  function LinearNWriteBytes(b: Buf): int {
    |b.store| - b.wpos
  }

  function LinearNReadBytes(b: Buf): int {
    b.wpos - b.rpos
  }

  /** `_set_lbuf_state`. */
  function SetLinearState(b: Buf): Buf {
    if b.rpos == b.wpos then b.(rpos := 0, wpos := 0, state := EMPTY)
    else b.(state := if b.wpos == |b.store| then FULL else NORMAL)
  }

  function LinearClamp(b: Buf, r: Request): nat
    requires LinearValid(b)
  {
    match r
    case Write(data) => Min(|data|, LinearNWriteBytes(b))
    case Read(n, _) => Min(n, LinearNReadBytes(b))
  }

  /** One whole call; a request for no bytes returns at once. */
  function LinearCall(b: Buf, r: Request): (b': Buf)
    requires LinearValid(b)
    ensures LinearValid(b') && |b'.store| == |b.store|
  {
    var n := LinearClamp(b, r);
    if Size(r) == 0 then b
    else match r
      case Write(data) =>
        SetLinearState(b.(store := Overlay(b.store, b.wpos, data[..n]), wpos := b.wpos + n))
      case Read(_, _) =>
        SetLinearState(b.(rpos := b.rpos + n))
  }

  function LinearReply(b: Buf, r: Request): Response
    requires LinearValid(b)
  {
    var n := LinearClamp(b, r);
    Response(n, if r.Read? && r.keep then b.store[b.rpos..b.rpos + n] else [])
  }

  function RunLinear(b: Buf, rs: seq<Request>): (run: BufRun)
    requires LinearValid(b)
    ensures LinearValid(run.buf)
  {
    if rs == [] then BufRun(b, [])
    else
      var before := RunLinear(b, rs[..|rs| - 1]);
      var r := rs[|rs| - 1];
      BufRun(LinearCall(before.buf, r), before.responses + [LinearReply(before.buf, r)])
  }

  lemma LinearWriteAppends(b: Buf, data: seq<byte>, n: nat)
    requires LinearValid(b) && n <= |data| && b.wpos + n <= |b.store|
    ensures LinearQueue(SetLinearState(b.(store := Overlay(b.store, b.wpos, data[..n]), wpos := b.wpos + n))) ==
            LinearQueue(b) + data[..n]
  {
  }

  lemma LinearReadRemoves(b: Buf, n: nat)
    requires LinearValid(b) && b.rpos + n <= b.wpos
    ensures LinearQueue(SetLinearState(b.(rpos := b.rpos + n))) == LinearQueue(b)[n..]
    ensures b.store[b.rpos..b.rpos + n] == LinearQueue(b)[..n]
  {
    SliceSlice(b.store, b.rpos, b.wpos, n, b.wpos - b.rpos);
    SliceSlice(b.store, b.rpos, b.wpos, 0, n);
    assert LinearQueue(b)[n..] == LinearQueue(b)[n..b.wpos - b.rpos];
    assert LinearQueue(b)[..n] == LinearQueue(b)[0..n];
    assert b.store[0..0] == [];
  }

  /** A linear write appends what it counts. */
  lemma LinearWriteOnQueue(b: Buf, r: Request)
    requires LinearValid(b) && r.Write?
    ensures LinearClamp(b, r) <= |r.data|
    ensures LinearQueue(LinearCall(b, r)) == LinearQueue(b) + r.data[..LinearClamp(b, r)]
  {
    LinearWriteAppends(b, r.data, LinearClamp(b, r));
  }

  /** A linear read serves a request as the bounded queue does. */
  lemma LinearReadOnQueue(b: Buf, r: Request)
    requires LinearValid(b) && r.Read?
    ensures |LinearQueue(b)| <= |b.store| && LinearClamp(b, r) == Moved(|b.store|, LinearQueue(b), r)
    ensures LinearQueue(LinearCall(b, r)) == LinearQueue(b)[LinearClamp(b, r)..]
    ensures LinearReply(b, r) == Answer(|b.store|, LinearQueue(b), r)
  {
    LinearReadRemoves(b, LinearClamp(b, r));
  }

  /** Whether the bytes already read leave a write short of room: the only case in which the linear buffer
      and the bounded queue differ. */
  predicate FitsBehind(b: Buf, r: Request) {
    r.Read? || b.rpos == 0 || |r.data| <= LinearNWriteBytes(b)
  }

  /** The linear buffer never accepts more than a ring of the same length that holds the same bytes, and as
      much exactly when the request fits behind the bytes it has already written. */
  lemma NeverAcceptsMoreThanRing(l: Buf, b: Buf, r: Request)
    requires LinearValid(l) && Valid(b) && |l.store| == |b.store| && LinearQueue(l) == Queue(b)
    ensures LinearReply(l, r).count <= Reply(b, r).count
    ensures LinearReply(l, r) == Reply(b, r) <==> FitsBehind(l, r)
    ensures FitsBehind(l, r) ==> LinearQueue(LinearCall(l, r)) == Queue(Call(b, r))
  {
    CallRefines(b, r);
    LinearCallOnFifo(l, r);
  }

  lemma LinearCallOnFifo(l: Buf, r: Request)
    requires LinearValid(l)
    ensures |LinearQueue(l)| <= |l.store|
    ensures LinearReply(l, r).count <= Moved(|l.store|, LinearQueue(l), r)
    ensures LinearReply(l, r) == Answer(|l.store|, LinearQueue(l), r) <==> FitsBehind(l, r)
    ensures FitsBehind(l, r) ==> LinearQueue(LinearCall(l, r)) == Next(|l.store|, LinearQueue(l), r)
  {
    if r.Write? {
      LinearWriteOnQueue(l, r);
      assert LinearReply(l, r).count == LinearClamp(l, r);
    } else {
      LinearReadOnQueue(l, r);
    }
  }

  /** Every write of the run fits behind what the linear buffer has written before it. */
  predicate AllFit(b: Buf, rs: seq<Request>)
    requires LinearValid(b)
  {
    rs == [] || (AllFit(b, rs[..|rs| - 1]) && FitsBehind(RunLinear(b, rs[..|rs| - 1]).buf, rs[|rs| - 1]))
  }

  /** Over a whole run the linear buffer answers as the bounded queue, and so as the ring, if and only if
      every write fits. */
  lemma {:induction false} AgreesWithFifo(b: Buf, rs: seq<Request>)
    requires LinearValid(b)
    ensures |LinearQueue(b)| <= |b.store| && |RunLinear(b, rs).buf.store| == |b.store|
    ensures |RunLinear(b, rs).responses| == |rs|
    ensures RunLinear(b, rs).responses == RunFifo(|b.store|, LinearQueue(b), rs).responses <==> AllFit(b, rs)
    ensures AllFit(b, rs) ==> LinearQueue(RunLinear(b, rs).buf) == RunFifo(|b.store|, LinearQueue(b), rs).queue
  {
    if rs != [] {
      var i := |rs| - 1;
      AgreesWithFifo(b, rs[..i]);
      var before := RunLinear(b, rs[..i]);
      var run, fifo := RunLinear(b, rs), RunFifo(|b.store|, LinearQueue(b), rs);
      assert run.responses[..i] == before.responses;
      assert fifo.responses[..i] == RunFifo(|b.store|, LinearQueue(b), rs[..i]).responses;
      LinearCallOnFifo(before.buf, rs[i]);
      assert run.responses[i] == LinearReply(before.buf, rs[i]);
      if AllFit(b, rs[..i]) {
        assert fifo.responses[i] == Answer(|b.store|, LinearQueue(before.buf), rs[i]);
      }
    }
  }

  /** The bytes requested for writing since the bounded queue was last empty. */
  function RequestedSinceDrain(cap: nat, rs: seq<Request>): nat {
    if rs == [] || RunFifo(cap, [], rs).queue == [] then 0
    else RequestedSinceDrain(cap, rs[..|rs| - 1]) + if rs[|rs| - 1].Write? then |rs[|rs| - 1].data| else 0
  }

  /** No write asks for more than is left of the length since the last drain. */
  predicate WithinLength(cap: nat, rs: seq<Request>) {
    rs == [] || (WithinLength(cap, rs[..|rs| - 1]) &&
                 (rs[|rs| - 1].Write? ==>
                    RequestedSinceDrain(cap, rs[..|rs| - 1]) + |rs[|rs| - 1].data| <= cap))
  }

  /** The condition a caller can keep without looking into the buffer: as long as the bytes requested for
      writing since the last drain never exceed the length, a linear buffer and a ring that both start
      empty give the same answers throughout. */
  lemma AgreesWithRingWithinLength(l: Buf, b: Buf, rs: seq<Request>)
    requires LinearValid(l) && Valid(b) && |l.store| == |b.store|
    requires LinearQueue(l) == [] && Queue(b) == [] && WithinLength(|l.store|, rs)
    ensures RunLinear(l, rs).responses == RunRing(b, rs).responses
    ensures LinearQueue(RunLinear(l, rs).buf) == Queue(RunRing(b, rs).buf)
  {
    WithinLengthFits(l, rs);
    AgreesWithFifo(l, rs);
    RunRefinesFifo(b, rs);
  }

  lemma {:induction false} WithinLengthFits(l: Buf, rs: seq<Request>)
    requires LinearValid(l) && LinearQueue(l) == [] && WithinLength(|l.store|, rs)
    ensures AllFit(l, rs) && RunLinear(l, rs).buf.wpos == RequestedSinceDrain(|l.store|, rs)
  {
    if rs != [] {
      hide LinearCall, LinearQueue, FitsBehind, RunFifo, LinearValid;
      var i := |rs| - 1;
      WithinLengthFits(l, rs[..i]);
      AgreesWithFifo(l, rs[..i]);
      WrittenSinceDrain(RunLinear(l, rs[..i]).buf, rs[i]);
      AgreesWithFifo(l, rs);
    }
  }

  /** The write pointer tells the bytes written since the last drain. */
  lemma WrittenSinceDrain(b: Buf, r: Request)
    requires LinearValid(b) && (r.Write? ==> b.wpos + |r.data| <= |b.store|)
    ensures FitsBehind(b, r)
    ensures LinearCall(b, r).wpos ==
            if LinearQueue(LinearCall(b, r)) == [] then 0 else b.wpos + if r.Write? then |r.data| else 0
  {
  }

  // ---- buffer_view ----

  /** `buffer_view` on a linear buffer: the offset counts from the start of the storage. */
  function LinearView(b: Buf, offset: nat, n: nat): Viewed
    requires LinearValid(b)
  {
    var count := Min(n, LinearNReadBytes(b));
    ViewCopies(b.store, offset, count, count)
  }

  predicate LinearShowsQueue(b: Buf, offset: nat, n: nat)
    requires LinearValid(b)
  {
    var q := LinearQueue(b);
    var count := Min(n, |q|);
    offset + count <= |q| && LinearView(b, offset, n) == Bytes(q[offset..offset + count])
  }

  /** The bytes asked for are all queued, and nothing has been read since the last drain. */
  predicate StartsTogether(b: Buf, offset: nat, n: nat)
    requires LinearValid(b)
  {
    var count := Min(n, |LinearQueue(b)|);
    offset + count <= |LinearQueue(b)| && (b.rpos == 0 || count == 0)
  }

  /** A linear view shows the queue, whatever the bytes, if and only if those asked for are all queued and
      nothing has been read since the last drain. */
  lemma LinearViewIsExactBeforeReading(b: Buf, offset: nat, n: nat)
    requires LinearValid(b)
    ensures (forall s: seq<byte> :: |s| == |b.store| ==> LinearShowsQueue(b.(store := s), offset, n))
            <==> StartsTogether(b, offset, n)
  {
    hide LinearShowsQueue;
    if StartsTogether(b, offset, n) {
      forall s: seq<byte> | |s| == |b.store|
        ensures LinearShowsQueue(b.(store := s), offset, n)
      {
        LinearViewShows(b.(store := s), offset, n);
      }
    } else {
      var s := LinearViewMisses(b, offset, n);
    }
  }

  lemma LinearViewShows(b: Buf, offset: nat, n: nat)
    requires LinearValid(b) && StartsTogether(b, offset, n)
    ensures LinearShowsQueue(b, offset, n)
  {
    LinearViewed(b, offset, n, Min(n, |LinearQueue(b)|));
  }

  /** Otherwise some bytes tell the difference. */
  lemma LinearViewMisses(b: Buf, offset: nat, n: nat) returns (s: seq<byte>)
    requires LinearValid(b) && !StartsTogether(b, offset, n)
    ensures |s| == |b.store| && !LinearShowsQueue(b.(store := s), offset, n)
  {
    var count := Min(n, b.wpos - b.rpos);
    s := b.store;
    if offset + count <= b.wpos - b.rpos {
      s := Overlay(Repeat(0, |b.store|), b.rpos + offset, [1]);
      LinearViewed(b.(store := s), offset, n, count);
      assert s[offset..offset + count][0] == 0;
      assert s[b.rpos + offset..b.rpos + offset + count][0] == 1;
    }
  }

  lemma LinearViewed(b: Buf, offset: nat, n: nat, count: nat)
    requires LinearValid(b) && count == Min(n, |LinearQueue(b)|) && offset + count <= |LinearQueue(b)|
    ensures LinearView(b, offset, n) == Bytes(b.store[offset..offset + count])
    ensures LinearQueue(b)[offset..offset + count] == b.store[b.rpos + offset..b.rpos + offset + count]
  {
    SliceSlice(b.store, b.rpos, b.wpos, offset, offset + count);
    if count == 0 {
      assert b.store[offset..offset] == [];
    } else {
      CopiesInOne(b.store, offset, count, count);
    }
  }
}
