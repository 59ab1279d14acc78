/** The handle `buffer_t` (src/core/buffer.c): one object, two implementations, changed in place.  Its
    pointers are offsets from the start of the storage. */
module Buffers {
  import opened Bytes
  import opened Fifo
  import opened Ring
  import opened Linear
  import opened Events

  datatype Kind = RING | LINEAR

  /** What a call makes of the state of either kind, and what it answers. */
  function CallOf(kind: Kind, b: Buf, r: Request): Buf
    requires ValidOf(kind, b)
  {
    if kind.RING? then Call(b, r) else LinearCall(b, r)
  }

  function ReplyOf(kind: Kind, b: Buf, r: Request): Response
    requires ValidOf(kind, b)
  {
    if kind.RING? then Reply(b, r) else LinearReply(b, r)
  }

  ghost predicate ValidOf(kind: Kind, b: Buf) {
    if kind.RING? then Ring.Valid(b) else LinearValid(b)
  }

  ghost function ContentsOf(kind: Kind, b: Buf): seq<byte>
    requires ValidOf(kind, b)
  {
    if kind.RING? then Queue(b) else LinearQueue(b)
  }

  class Buffer {
    const kind: Kind
    const buf: array<byte>
    var readPtr: nat
    var writePtr: nat
    var state: State
    var eventList: seq<HmEvent>
    var locked: bool   // the mutex

    function Model(): Buf
      reads this, buf
    {
      Buf(buf[..], readPtr, writePtr, state)
    }

    ghost predicate Valid()
      reads this, buf
    {
      ValidOf(kind, Model())
    }

    /** The queued bytes. */
    ghost function Contents(): seq<byte>
      requires Valid()
      reads this, buf
    {
      ContentsOf(kind, Model())
    }

    /** `buffer_init`: fresh storage filled with zeros. */
    constructor Init(n: nat, kind: Kind)
      ensures Valid() && Contents() == [] && buf.Length == n && fresh(buf)
      ensures this.kind == kind && eventList == [] && !locked
      ensures forall i :: 0 <= i < n ==> buf[i] == 0
    {
      this.kind := kind;
      buf := new byte[n](_ => 0);
      readPtr, writePtr, state := 0, 0, EMPTY;
      eventList, locked := [], false;
    }

    /** `buffer_init_ext`: the caller's storage, as it is. */
    constructor InitExt(raw: array<byte>, kind: Kind)
      ensures Valid() && Contents() == [] && buf == raw && Model() == Buf(raw[..], 0, 0, EMPTY)
      ensures this.kind == kind && eventList == [] && !locked
    {
      this.kind := kind;
      buf := raw;
      readPtr, writePtr, state := 0, 0, EMPTY;
      eventList, locked := [], false;
    }

    /** `buffer_copy`: the same state in storage of its own, with no events. */
    constructor Copy(src: Buffer)
      requires src.Valid()
      ensures Valid() && kind == src.kind && Model() == src.Model() && fresh(buf)
      ensures eventList == [] && !locked
    {
      kind := src.kind;
      buf := new byte[src.buf.Length](_ => 0);
      readPtr, writePtr, state := src.readPtr, src.writePtr, src.state;
      eventList, locked := [], false;
      new;
      CopyBytes(src.buf, 0, buf, 0, src.buf.Length);
      assert buf[..] == src.buf[..];
    }

    /** `buffer_reset`. */
    method Reset()
      modifies this`readPtr, this`writePtr, this`state
      ensures Valid() && Contents() == [] && Model() == old(Model()).(rpos := 0, wpos := 0, state := EMPTY)
    {
      readPtr := 0;
      writePtr := 0;
      state := EMPTY;
    }

    /** `buffer_event_add`: an event that is not about a buffer is refused. */
    method EventAdd(e: HmEvent) returns (rc: int)
      modifies this`eventList
      ensures if e.objType == OBJ_BUFFER then rc == 0 && eventList == old(eventList) + [e]
              else rc == -1 && eventList == old(eventList)
    {
      if e.objType != OBJ_BUFFER {
        return -1;
      }
      eventList := eventList + [e];
      rc := 0;
    }

    /** `_set_rbuf_state`. */
    method SetRbufState(mode: Mode)
      modifies this`readPtr, this`writePtr, this`state
      ensures Model() == SetState(old(Model()), mode)
    {
      if readPtr >= buf.Length {
        readPtr := readPtr - buf.Length;
      }
      if writePtr >= buf.Length {
        writePtr := writePtr - buf.Length;
      }
      if readPtr != writePtr {
        state := NORMAL;
        return;
      }
      match mode
      case ReadMode => state := EMPTY;
      case WriteMode => state := FULL;
    }

    /** `_set_lbuf_state`. */
    method SetLbufState()
      modifies this`readPtr, this`writePtr, this`state
      ensures Model() == SetLinearState(old(Model()))
    {
      if readPtr == writePtr {
        Reset();
      } else if writePtr == buf.Length {
        state := FULL;
      } else {
        state := NORMAL;
      }
    }

    /** The bytes free for a writer and queued for a reader; neither takes the mutex. */
    function NWriteBytes(): int
      requires Valid()
      reads this, buf
    {
      if kind.RING? then Ring.NWriteBytes(Model()) else LinearNWriteBytes(Model())
    }

    function NReadBytes(): int
      requires Valid()
      reads this, buf
    {
      if kind.RING? then Ring.NReadBytes(Model()) else LinearNReadBytes(Model())
    }

    lemma CountsTellContents()
      requires Valid()
      ensures NReadBytes() == |Contents()| && NWriteBytes() >= 0
      ensures kind.RING? ==> NWriteBytes() == buf.Length - |Contents()|
    {
      if kind.RING? {
        CountsAgree(Model());
      }
    }

    /** Reporting a call to the registered events.  Reads are reported with the same type as writes. */
    method Wake(n: nat)
      requires Valid()
      modifies set e | e in eventList
      ensures forall e :: e in eventList ==>
                e.pipe == old(e.pipe) + Repeat(IoRecord(WRITE, n, |Contents()|, NWriteBytes()), multiset(eventList)[e])
    {
      CountsTellContents();
      if |eventList| > 0 {
        BufferWake(eventList, WRITE, n, NReadBytes(), NWriteBytes());
      }
    }

    /** The copies of a ring write and the move of its pointer. */
    method PutBytes(src: array<byte>, n: nat, linear: nat, ghost data: seq<byte>)
      requires n <= |data| <= src.Length && data == src[..|data|] && src != buf
      requires writePtr + Min(n, linear) <= buf.Length && n - linear <= buf.Length
      modifies this`writePtr, buf
      ensures Model() == MoveWrite(CopyInSecond(CopyInFirst(old(Model()), data, n, linear), data, n, linear), n, linear)
    {
      hide Overlay;
      if n > linear {
        CopyBytes(src, 0, buf, writePtr, linear);
        ArraySlice(src, |data|, 0, linear);
        CopyBytes(src, linear, buf, 0, n - linear);
        ArraySlice(src, |data|, linear, n);
        writePtr := n - linear;
      } else {
        CopyBytes(src, 0, buf, writePtr, n);
        ArraySlice(src, |data|, 0, n);
        writePtr := writePtr + n;
      }
    }

    /** From the clamp to the settled state, under the mutex. */
    method RingPut(src: array<byte>, n: nat) returns (rc: nat)
      requires kind.RING? && Valid() && 0 < n <= src.Length && src != buf
      modifies this`readPtr, this`writePtr, this`state, buf
      ensures Valid() && Model() == After(old(Model()), Write(src[..n])) && rc == Clamp(old(Model()), Write(src[..n]))
    {
      hide CopyInFirst, CopyInSecond, MoveWrite, Queue, Ring.NReadBytes, LinearQueue;
      ghost var r := Write(src[..n]);
      ghost var was := Model();
      CopiesStayInside(was, r);
      CallRefinesFifo(was, r);
      CountsAgree(was);
      rc := Min(n, NWriteBytes());
      var linear := LinearWriteBytes(Model());
      PutBytes(src, rc, linear, src[..n]);
      SetRbufState(WriteMode);
    }

    method RbufWrite(src: array<byte>, n: nat) returns (rc: nat)
      requires kind.RING? && Valid() && !locked && n <= src.Length && src != buf
      modifies this`readPtr, this`writePtr, this`state, this`locked, buf, set e | e in eventList
      ensures Valid() && !locked
      ensures Model() == Call(old(Model()), Write(src[..n])) && rc == Reply(old(Model()), Write(src[..n])).count
      ensures forall e :: e in eventList ==> e.pipe == old(e.pipe) + Report(n, rc, multiset(eventList)[e])
    {
      hide After, Clamp, Queue, LinearQueue;
      if n == 0 {
        return 0;
      }
      locked := true;
      rc := RingPut(src, n);
      Wake(rc);
      locked := false;
    }

    /** The records an event registered `k` times gets of a call for `n` bytes that moved `rc`, the buffer
        being as it is now: none if nothing was asked for. */
    ghost function Report(n: nat, rc: nat, k: nat): (r: seq<IoRecord>)
      requires Valid()
      reads this, buf
      ensures |r| == (if n == 0 then 0 else k)
      ensures forall i :: 0 <= i < |r| ==>
                r[i].ioType == WRITE && r[i].transferred == rc && r[i].readable == |Contents()|
                && (kind.RING? ==> r[i].readable + r[i].writeable == buf.Length)
                && (kind.LINEAR? ==> r[i].writeable == buf.Length - writePtr)
    {
      CountsTellContents();
      if n == 0 then [] else Repeat(IoRecord(WRITE, rc, |Contents()|, NWriteBytes()), k)
    }

    /** The two copies of a read or a view: `n` bytes from `at` on, going on at the start of the storage
        after `linear` of them. */
    method CopyOut(dest: array<byte>, at: nat, n: nat, linear: nat)
      requires dest != buf && n <= dest.Length && at + Min(n, linear) <= buf.Length && n - linear <= buf.Length
      modifies dest
      ensures dest[..] == Overlay(old(dest[..]), 0, Stretches(buf[..], at, n, linear))
    {
      hide Overlay, Stretches;
      if n > linear {
        ArraySlice(buf, buf.Length, at, at + linear);
        ArraySlice(buf, buf.Length, 0, n - linear);
        TwoStretches(buf[..], at, n, linear);
        CopyBytes(buf, at, dest, 0, linear);
        CopyBytes(buf, 0, dest, linear, n - linear);
        OverlayTwice(old(dest[..]), buf[at..at + linear], buf[0..n - linear]);
      } else {
        ArraySlice(buf, buf.Length, at, at + n);
        OneStretch(buf[..], at, n, linear);
        CopyBytes(buf, at, dest, 0, n);
      }
    }

    /** The copies of a ring read, if there is a destination, and the move of its pointer. */
    method TakeBytes(dest: array?<byte>, n: nat, linear: nat)
      requires dest != null ==> dest != buf && n <= dest.Length
      requires readPtr + Min(n, linear) <= buf.Length && n - linear <= buf.Length
      modifies this`readPtr, dest
      ensures Model() == MoveRead(old(Model()), n, linear)
      ensures dest != null ==> dest[..] == Overlay(old(dest[..]), 0, Stretches(old(buf[..]), old(readPtr), n, linear))
    {
      hide Overlay;
      if dest != null {
        CopyOut(dest, readPtr, n, linear);
      }
      readPtr := if n > linear then n - linear else readPtr + n;
    }

    /** From the clamp to the settled state, under the mutex. */
    method RingTake(dest: array?<byte>, n: nat) returns (rc: nat)
      requires kind.RING? && Valid() && 0 < n && (dest != null ==> dest != buf && n <= dest.Length)
      modifies this`readPtr, this`writePtr, this`state, dest
      ensures Valid()
      ensures var r := Read(n, dest != null); Model() == After(old(Model()), r) && rc == Clamp(old(Model()), r)
      ensures dest != null ==>
                var out := Delivered(old(Model()), Read(n, true));
                |out| == rc <= n && dest[..] == Overlay(old(dest[..]), 0, out)
    {
      hide FirstStretch, SecondStretch, MoveRead, Queue, Ring.NReadBytes, LinearQueue, Overlay;
      ghost var r := Read(n, dest != null);
      ghost var was := Model();
      CopiesStayInside(was, r);
      CallRefinesFifo(was, r);
      CountsAgree(was);
      rc := Min(n, NReadBytes());
      var linear := LinearReadBytes(Model());
      TakeBytes(dest, rc, linear);
      SetRbufState(ReadMode);
    }

    method RbufRead(dest: array?<byte>, n: nat) returns (rc: nat)
      requires kind.RING? && Valid() && !locked && (dest != null ==> dest != buf && n <= dest.Length)
      modifies this`readPtr, this`writePtr, this`state, this`locked, dest, set e | e in eventList
      ensures Valid() && !locked
      ensures var r := Read(n, dest != null);
              Model() == Call(old(Model()), r) && rc == Reply(old(Model()), r).count
      ensures dest != null ==>
                var out := Reply(old(Model()), Read(n, true)).bytes;
                |out| == rc <= n && dest[..] == Overlay(old(dest[..]), 0, out)
      ensures forall e :: e in eventList ==> e.pipe == old(e.pipe) + Report(n, rc, multiset(eventList)[e])
    {
      hide After, Clamp, Delivered, Queue, LinearQueue, Overlay;
      if n == 0 {
        if dest != null {
          OverlayNothing(dest[..]);
        }
        return 0;
      }
      locked := true;
      rc := RingTake(dest, n);
      Wake(rc);
      locked := false;
    }

    /** The same for the linear buffer. */
    method LinearPut(src: array<byte>, n: nat) returns (rc: nat)
      requires kind.LINEAR? && Valid() && 0 < n <= src.Length && src != buf
      modifies this`readPtr, this`writePtr, this`state, buf
      ensures Valid()
      ensures var r := Write(src[..n]);
              Model() == LinearCall(old(Model()), r) && rc == LinearReply(old(Model()), r).count
    {
      hide Overlay, LinearQueue;
      rc := Min(n, NWriteBytes());
      CopyBytes(src, 0, buf, writePtr, rc);
      ArraySlice(src, n, 0, rc);
      writePtr := writePtr + rc;
      SetLbufState();
    }

    method LbufWrite(src: array<byte>, n: nat) returns (rc: nat)
      requires kind.LINEAR? && Valid() && !locked && n <= src.Length && src != buf
      modifies this`readPtr, this`writePtr, this`state, this`locked, buf, set e | e in eventList
      ensures Valid() && !locked
      ensures var r := Write(src[..n]);
              Model() == LinearCall(old(Model()), r) && rc == LinearReply(old(Model()), r).count
      ensures forall e :: e in eventList ==> e.pipe == old(e.pipe) + Report(n, rc, multiset(eventList)[e])
    {
      hide Queue, LinearQueue;
      if n == 0 {
        return 0;
      }
      locked := true;
      rc := LinearPut(src, n);
      Wake(rc);
      locked := false;
    }

    method LinearTake(dest: array?<byte>, n: nat) returns (rc: nat)
      requires kind.LINEAR? && Valid() && 0 < n && (dest != null ==> dest != buf && n <= dest.Length)
      modifies this`readPtr, this`writePtr, this`state, dest
      ensures Valid()
      ensures var r := Read(n, dest != null);
              Model() == LinearCall(old(Model()), r) && rc == LinearReply(old(Model()), r).count
      ensures dest != null ==>
                var out := LinearReply(old(Model()), Read(n, true)).bytes;
                |out| == rc <= n && dest[..] == Overlay(old(dest[..]), 0, out)
    {
      hide Overlay;
      rc := Min(n, NReadBytes());
      if dest != null {
        CopyBytes(buf, readPtr, dest, 0, rc);
        ArraySlice(buf, buf.Length, readPtr, readPtr + rc);
      }
      readPtr := readPtr + rc;
      SetLbufState();
    }

    method LbufRead(dest: array?<byte>, n: nat) returns (rc: nat)
      requires kind.LINEAR? && Valid() && !locked && (dest != null ==> dest != buf && n <= dest.Length)
      modifies this`readPtr, this`writePtr, this`state, this`locked, dest, set e | e in eventList
      ensures Valid() && !locked
      ensures var r := Read(n, dest != null);
              Model() == LinearCall(old(Model()), r) && rc == LinearReply(old(Model()), r).count
      ensures dest != null ==>
                var out := LinearReply(old(Model()), Read(n, true)).bytes;
                |out| == rc <= n && dest[..] == Overlay(old(dest[..]), 0, out)
      ensures forall e :: e in eventList ==> e.pipe == old(e.pipe) + Report(n, rc, multiset(eventList)[e])
    {
      hide Queue, LinearQueue, Overlay;
      if n == 0 {
        if dest != null {
          OverlayNothing(dest[..]);
        }
        return 0;
      }
      locked := true;
      rc := LinearTake(dest, n);
      Wake(rc);
      locked := false;
    }

    /** `buffer_write`: of the `n` bytes at `src`, as many as there is room for join the queue. */
    method BufferWrite(src: array<byte>, n: nat) returns (rc: nat)
      requires Valid() && !locked && n <= src.Length && src != buf
      modifies this`readPtr, this`writePtr, this`state, this`locked, buf, set e | e in eventList
      ensures Valid() && !locked && Model() == CallOf(kind, old(Model()), Write(src[..n]))
      ensures rc == Min(n, old(NWriteBytes())) && Contents() == old(Contents()) + src[..rc]
      ensures NWriteBytes() == old(NWriteBytes()) - rc
      ensures forall e :: e in eventList ==> e.pipe == old(e.pipe) + Report(n, rc, multiset(eventList)[e])
    {
      hide Call, LinearCall, Queue, LinearQueue;
      ghost var was := Model();
      WriteOnContents(kind, was, src[..n]);
      match kind
      case RING => rc := RbufWrite(src, n);
      case LINEAR => rc := LbufWrite(src, n);
      assert src[..n][..rc] == src[..rc];
    }

    /** `buffer_read`: the oldest `n` queued bytes, or as many as there are, leave the queue for `dest`; with
        no destination they are thrown away. */
    method BufferRead(dest: array?<byte>, n: nat) returns (rc: nat)
      requires Valid() && !locked && (dest != null ==> dest != buf && n <= dest.Length)
      modifies this`readPtr, this`writePtr, this`state, this`locked, dest, set e | e in eventList
      ensures Valid() && !locked && Model() == CallOf(kind, old(Model()), Read(n, dest != null))
      ensures rc == Min(n, |old(Contents())|) && Contents() == old(Contents())[rc..]
      ensures dest != null ==> dest[..] == Overlay(old(dest[..]), 0, old(Contents())[..rc])
      ensures forall e :: e in eventList ==> e.pipe == old(e.pipe) + Report(n, rc, multiset(eventList)[e])
    {
      hide Call, LinearCall, Queue, LinearQueue, Overlay, Reply, LinearReply;
      ghost var was := Model();
      ReadOnContents(kind, was, n, dest != null);
      ReadOnContents(kind, was, n, true);
      match kind
      case RING => rc := RbufRead(dest, n);
      case LINEAR => rc := LbufRead(dest, n);
    }

    /** What a view copies out, if it stays inside the storage. */
    function Viewing(offset: nat, n: nat): Viewed
      requires Valid() && buf.Length < UINT_RANGE && offset < UINT_RANGE
      reads this, buf
    {
      if kind.RING? then View(Model(), offset, n) else LinearView(Model(), offset, n)
    }

    /** `buffer_view`: the bytes are copied and nothing is changed, but on a linear buffer the mutex is kept and 0
        returned. */
    method BufferView(dest: array<byte>, offset: nat, n: nat) returns (rc: nat)
      requires Valid() && !locked && dest != buf && n <= dest.Length && buf.Length < UINT_RANGE
      requires offset < UINT_RANGE && Viewing(offset, n).Bytes?
      modifies this`locked, dest
      ensures Model() == old(Model()) && locked == kind.LINEAR?
      ensures rc == if kind.RING? then Min(n, |old(Contents())|) else 0
      ensures var bytes := old(Viewing(offset, n)).bytes;
              |bytes| == Min(n, |old(Contents())|) && dest[..] == Overlay(old(dest[..]), 0, bytes)
    {
      hide Overlay, Queue, LinearQueue, ViewCopies;
      CountsTellContents();
      locked := true;
      rc := Min(n, NReadBytes());
      match kind
      case RING =>
        var linear := UintSub(LinearReadBytes(Model()), offset);
        CopyViewed(dest, readPtr + offset, rc, linear);
        locked := false;
      case LINEAR =>
        CopyViewed(dest, offset, rc, rc);
        rc := 0;
    }

    /** The copies of a view; one of no bytes is none, wherever it starts. */
    method CopyViewed(dest: array<byte>, at: nat, n: nat, linear: nat)
      requires dest != buf && n <= dest.Length && ViewCopies(buf[..], at, linear, n).Bytes?
      modifies dest
      ensures var bytes := ViewCopies(buf[..], at, linear, n).bytes;
              |bytes| == n && dest[..] == Overlay(old(dest[..]), 0, bytes)
    {
      hide Overlay, Stretches;
      if n > 0 {
        CopyOut(dest, at, n, linear);
      } else {
        OverlayNothing(dest[..]);
      }
    }
  }

  lemma WriteOnContents(kind: Kind, b: Buf, data: seq<byte>)
    requires ValidOf(kind, b)
    ensures ValidOf(kind, CallOf(kind, b, Write(data)))
    ensures var k := ReplyOf(kind, b, Write(data)).count;
            k == Min(|data|, if kind.RING? then Ring.NWriteBytes(b) else LinearNWriteBytes(b)) && 0 <= k <= |data|
            && ContentsOf(kind, CallOf(kind, b, Write(data))) == ContentsOf(kind, b) + data[..k]
    ensures var k, b' := ReplyOf(kind, b, Write(data)).count, CallOf(kind, b, Write(data));
            if kind.RING? then Ring.NWriteBytes(b') == Ring.NWriteBytes(b) - k
            else LinearNWriteBytes(b') == LinearNWriteBytes(b) - k
  {
    if kind.RING? {
      CallRefines(b, Write(data));
      CountsAgree(b);
      CountsAgree(Call(b, Write(data)));
    } else {
      LinearWriteOnQueue(b, Write(data));
    }
  }

  lemma ReadOnContents(kind: Kind, b: Buf, n: nat, keep: bool)
    requires ValidOf(kind, b)
    ensures ValidOf(kind, CallOf(kind, b, Read(n, keep)))
    ensures var q, r := ContentsOf(kind, b), Read(n, keep);
            ReplyOf(kind, b, r).count == Min(n, |q|) && ContentsOf(kind, CallOf(kind, b, r)) == q[Min(n, |q|)..]
            && (keep ==> ReplyOf(kind, b, r).bytes == q[..Min(n, |q|)])
  {
    if kind.RING? {
      CallRefines(b, Read(n, keep));
    } else {
      LinearReadOnQueue(b, Read(n, keep));
    }
  }
}
