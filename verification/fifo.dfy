/** The bounded first-in first-out queue of bytes that both kinds of buffer stand for. */
module Fifo {
  import opened Bytes

  /** A call of `buffer_write` with the bytes at `src`, or of `buffer_read` for `n` bytes; `keep` is
      false when the destination is NULL and the bytes are thrown away. */
  datatype Request = Write(data: seq<byte>) | Read(n: nat, keep: bool)

  /** The byte count a call returns and, for a read with a destination, the bytes stored there. */
  datatype Response = Response(count: nat, bytes: seq<byte>)

  datatype Run = Run(queue: seq<byte>, responses: seq<Response>)

  function Size(r: Request): nat {
    match r
    case Write(data) => |data|
    case Read(n, _) => n
  }

  /** The number of bytes a request moves when the queue holds `q`. */
  function Moved(cap: nat, q: seq<byte>, r: Request): (k: nat)
    requires |q| <= cap
    ensures k <= Size(r)
  {
    match r
    case Write(data) => Min(|data|, cap - |q|)
    case Read(n, _) => Min(n, |q|)
  }

  function Next(cap: nat, q: seq<byte>, r: Request): (q': seq<byte>)
    requires |q| <= cap
    ensures |q'| <= cap
  {
    match r
    case Write(data) => q + data[..Moved(cap, q, r)]
    case Read(_, _) => q[Moved(cap, q, r)..]
  }

  function Answer(cap: nat, q: seq<byte>, r: Request): Response
    requires |q| <= cap
  {
    var k := Moved(cap, q, r);
    Response(k, if r.Read? && r.keep then q[..k] else [])
  }

  /** The queue and the responses after serving `rs` one after the other. */
  function RunFifo(cap: nat, q: seq<byte>, rs: seq<Request>): (run: Run)
    requires |q| <= cap
    ensures |run.queue| <= cap && |run.responses| == |rs|
  {
    if rs == [] then Run(q, [])
    else
      var before := RunFifo(cap, q, rs[..|rs| - 1]);
      var r := rs[|rs| - 1];
      Run(Next(cap, before.queue, r), before.responses + [Answer(cap, before.queue, r)])
  }

  lemma RunSnoc(cap: nat, q: seq<byte>, rs: seq<Request>, r: Request)
    requires |q| <= cap
    ensures var before := RunFifo(cap, q, rs);
            RunFifo(cap, q, rs + [r]) ==
            Run(Next(cap, before.queue, r), before.responses + [Answer(cap, before.queue, r)])
  {
    assert (rs + [r])[..|rs|] == rs;
  }

  /** All bytes that ever were in the queue, oldest first: those present at the start, then of each write
      request as many leading bytes as its response counts. */
  function Stream(q: seq<byte>, rs: seq<Request>, answers: seq<Response>): seq<byte>
    requires |rs| == |answers|
  {
    if rs == [] then q
    else
      var i := |rs| - 1;
      var before := Stream(q, rs[..i], answers[..i]);
      match rs[i]
      case Write(data) => before + data[..Min(|data|, answers[i].count)]
      case Read(_, _) => before
  }

  /** The number of bytes taken out by reads, whether or not they were kept. */
  function TakenCount(rs: seq<Request>, answers: seq<Response>): nat
    requires |rs| == |answers|
  {
    if rs == [] then 0
    else
      var i := |rs| - 1;
      TakenCount(rs[..i], answers[..i]) + if rs[i].Read? then answers[i].count else 0
  }

  /** The last request of a run extends the stream or the count of bytes taken. */
  lemma RunStep(cap: nat, q: seq<byte>, rs: seq<Request>)
    requires |q| <= cap && rs != []
    ensures var i := |rs| - 1;
            var before := RunFifo(cap, q, rs[..i]);
            var run := RunFifo(cap, q, rs);
            var stream := Stream(q, rs[..i], before.responses);
            var k := Moved(cap, before.queue, rs[i]);
            run.queue == Next(cap, before.queue, rs[i])
            && Stream(q, rs, run.responses) == (if rs[i].Write? then stream + rs[i].data[..k] else stream)
            && TakenCount(rs, run.responses) == TakenCount(rs[..i], before.responses) +
                                                (if rs[i].Read? then k else 0)
  {
    var i := |rs| - 1;
    var before := RunFifo(cap, q, rs[..i]);
    var last := Answer(cap, before.queue, rs[i]);
    var answers := before.responses + [last];
    assert answers[..i] == before.responses && answers[i] == last;
  }

  /** Conservation: the bytes put in are the bytes taken out followed by the bytes still queued. */
  lemma {:induction false} Conservation(cap: nat, q: seq<byte>, rs: seq<Request>)
    requires |q| <= cap
    ensures var run := RunFifo(cap, q, rs);
            var stream := Stream(q, rs, run.responses);
            var taken := TakenCount(rs, run.responses);
            taken <= |stream| && run.queue == stream[taken..]
  {
    hide RunFifo, Stream, TakenCount, Next, Moved;
    if rs == [] {
      NothingYet(cap, q);
    } else {
      var i := |rs| - 1;
      Conservation(cap, q, rs[..i]);
      RunStep(cap, q, rs);
      var before := RunFifo(cap, q, rs[..i]);
      ConservationStep(cap, before.queue, rs[i], Stream(q, rs[..i], before.responses),
                       TakenCount(rs[..i], before.responses));
    }
  }

  lemma NothingYet(cap: nat, q: seq<byte>)
    requires |q| <= cap
    ensures RunFifo(cap, q, []) == Run(q, []) && Stream(q, [], []) == q && TakenCount([], []) == 0
  {
  }

  lemma ConservationStep(cap: nat, q: seq<byte>, r: Request, stream: seq<byte>, taken: nat)
    requires |q| <= cap && taken <= |stream| && q == stream[taken..]
    ensures var k := Moved(cap, q, r);
            (r.Read? ==> taken + k <= |stream|)
            && Next(cap, q, r) == if r.Write? then (stream + r.data[..k])[taken..] else stream[taken + k..]
  {
    var k := Moved(cap, q, r);
    if r.Write? {
      DropAppend(stream, r.data[..k], taken);
    } else {
      DropDrop(stream, taken, k);
    }
  }

  /** A longer run starts with the responses of a shorter one. */
  lemma {:induction false} RunPrefix(cap: nat, q: seq<byte>, rs: seq<Request>, i: nat)
    requires |q| <= cap && i <= |rs|
    ensures RunFifo(cap, q, rs[..i]).responses == RunFifo(cap, q, rs).responses[..i]
  {
    if i == |rs| {
      assert rs[..i] == rs;
    } else {
      RunPrefix(cap, q, rs[..|rs| - 1], i);
      assert rs[..|rs| - 1][..i] == rs[..i];
    }
  }

  lemma {:induction false} StreamGrows(q: seq<byte>, rs: seq<Request>, answers: seq<Response>, i: nat)
    requires |rs| == |answers| && i <= |rs|
    ensures Stream(q, rs[..i], answers[..i]) <= Stream(q, rs, answers)
  {
    var last := |rs| - 1;
    if i == |rs| {
      assert rs[..i] == rs && answers[..i] == answers;
    } else {
      StreamGrows(q, rs[..last], answers[..last], i);
      assert rs[..last][..i] == rs[..i] && answers[..last][..i] == answers[..i];
    }
  }

  /** In-order delivery: whatever mix of writes, reads and discards comes before, the read numbered `i`
      returns exactly the stretch of the stream that starts where the reads before it ended. */
  lemma ReadsDeliverTheStream(cap: nat, q: seq<byte>, rs: seq<Request>, i: nat)
    requires |q| <= cap && i < |rs| && rs[i].Read? && rs[i].keep
    ensures var answers := RunFifo(cap, q, rs).responses;
            var stream := Stream(q, rs, answers);
            var from := TakenCount(rs[..i], answers[..i]);
            from + answers[i].count <= |stream|
            && answers[i].bytes == stream[from..from + answers[i].count]
  {
    hide Stream, TakenCount, RunFifo;
    var answers := RunFifo(cap, q, rs).responses;
    ResponseAt(cap, q, rs, i);
    Conservation(cap, q, rs[..i]);
    StreamGrows(q, rs, answers, i);
    var early := Stream(q, rs[..i], answers[..i]);
    var from := TakenCount(rs[..i], answers[..i]);
    FrontOfSuffix(early, Stream(q, rs, answers), from, RunFifo(cap, q, rs[..i]).queue, answers[i].count);
  }

  lemma ResponseAt(cap: nat, q: seq<byte>, rs: seq<Request>, i: nat)
    requires |q| <= cap && i < |rs|
    ensures var answers := RunFifo(cap, q, rs).responses;
            var before := RunFifo(cap, q, rs[..i]);
            answers[..i] == before.responses && answers[i] == Answer(cap, before.queue, rs[i])
  {
    RunPrefix(cap, q, rs, i);
    RunPrefix(cap, q, rs, i + 1);
    var answers := RunFifo(cap, q, rs).responses;
    assert rs[..i + 1][..i] == rs[..i];
    assert answers[..i + 1][i] == answers[i];
  }
}
