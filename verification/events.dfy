/** The record broadcast and the polling loop of src/core/event_unix.c.  A pipe is the sequence of the
    records written to it and not read yet. */
module Events {
  import opened Bytes

  datatype IoType = READ | WRITE

  /** `buffer_io_event_t`. */
  datatype IoRecord = IoRecord(ioType: IoType, transferred: nat, readable: nat, writeable: nat)

  /** What an event is about. */
  datatype ObjType = OBJ_FD | OBJ_MUTEX | OBJ_FUTEX | OBJ_BUFFER

  class HmEvent {
    const objType: ObjType
    /** Whether the event's condition function returns 0 on a record. */
    const cond: IoRecord -> bool
    var pipe: seq<IoRecord>

    constructor (objType: ObjType, cond: IoRecord -> bool)
      ensures this.objType == objType && this.cond == cond && pipe == []
    {
      this.objType, this.cond := objType, cond;
      pipe := [];
    }
  }

  /** `hm_event_buffer_wake`: each event gets the record once for every time it is registered. */
  method BufferWake(events: seq<HmEvent>, ioType: IoType, transferred: nat, readable: nat, writeable: nat)
    modifies set e | e in events
    ensures forall e :: e in events ==>
              e.pipe == old(e.pipe) + Repeat(IoRecord(ioType, transferred, readable, writeable), multiset(events)[e])
  {
    var record := IoRecord(ioType, transferred, readable, writeable);
    var i := 0;
    while i < |events|
      invariant 0 <= i <= |events|
      invariant forall e :: e in events ==> e.pipe == old(e.pipe) + Repeat(record, multiset(events[..i])[e])
    {
      var e := events[i];
      assert events[..i + 1] == events[..i] + [e];
      e.pipe := e.pipe + [record];
      i := i + 1;
    }
    assert events[..i] == events;
  }

  /** The position of the first record the condition accepts, or the length if there is none. */
  function FirstAccepted(cond: IoRecord -> bool, records: seq<IoRecord>): (k: nat)
    ensures k <= |records|
    ensures k < |records| ==> cond(records[k])
    ensures forall j :: 0 <= j < k ==> !cond(records[j])
  {
    if records == [] || cond(records[0]) then 0 else 1 + FirstAccepted(cond, records[1..])
  }

  /** `hm_poll_buffer` on the records there are: it returns at the first one accepted, having taken it and
      all before it and nothing else; with none accepted it has taken them all and goes on waiting. */
  method PollBuffer(e: HmEvent) returns (done: bool)
    modifies e
    ensures var k := FirstAccepted(e.cond, old(e.pipe));
            done == (k < |old(e.pipe)|) && e.pipe == if done then old(e.pipe)[k + 1..] else []
  {
    ghost var taken := 0;
    done := false;
    while e.pipe != []
      invariant taken <= |old(e.pipe)| && e.pipe == old(e.pipe)[taken..]
      invariant forall j :: 0 <= j < taken ==> !e.cond(old(e.pipe)[j])
      decreases |e.pipe|
    {
      var record := e.pipe[0];
      e.pipe := e.pipe[1..];
      if e.cond(record) {
        return true;
      }
      taken := taken + 1;
    }
  }

  /** Waiting in between makes no difference: a poller that has found nothing in the records so far ends up
      at the record it would have picked had all been there at once. */
  lemma {:induction false} PollResumes(cond: IoRecord -> bool, before: seq<IoRecord>, later: seq<IoRecord>)
    requires FirstAccepted(cond, before) == |before|
    ensures FirstAccepted(cond, before + later) == |before| + FirstAccepted(cond, later)
  {
    if before == [] {
      assert before + later == later;
    } else {
      assert (before + later)[1..] == before[1..] + later;
      PollResumes(cond, before[1..], later);
    }
  }

  /** Nor do records that come later change a pick once made. */
  lemma {:induction false} PickStays(cond: IoRecord -> bool, before: seq<IoRecord>, all: seq<IoRecord>)
    requires before <= all && FirstAccepted(cond, before) < |before|
    ensures FirstAccepted(cond, all) == FirstAccepted(cond, before)
  {
    if !cond(before[0]) {
      assert before[1..] <= all[1..];
      PickStays(cond, before[1..], all[1..]);
    }
  }
}
