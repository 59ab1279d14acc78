/** Callers of the buffer: the Python methods (src/python/hiemal/_c/src/buffer.c) and the chunked transfers
    to and from a PulseAudio stream (src/core/pulse.c).  The stream is an oracle: what it answers to the
    k-th question is a function of k. */
module Clients {
  import opened Bytes
  import opened Ring
  import opened Linear
  import opened Buffers

  /** `Buffer.write`: the number returned is the number of bytes really moved. */
  method PyWrite(b: Buffer, src: array<byte>) returns (written: nat)
    requires b.Valid() && !b.locked && src != b.buf
    modifies b`readPtr, b`writePtr, b`state, b`locked, b.buf, set e | e in b.eventList
    ensures b.Valid() && !b.locked && written == Min(src.Length, old(b.NWriteBytes()))
    ensures b.Contents() == old(b.Contents()) + src[..written]
  {
    b.CountsTellContents();
    written := Min(src.Length, b.NWriteBytes());
    var rc := b.BufferWrite(src, written);
  }

  /** `Buffer.read`: the bytes object is filled with queued bytes to its full length. */
  method PyRead(b: Buffer, requested: nat) returns (result: array<byte>)
    requires b.Valid() && !b.locked
    modifies b`readPtr, b`writePtr, b`state, b`locked, set e | e in b.eventList
    ensures b.Valid() && !b.locked && fresh(result)
    ensures result[..] == old(b.Contents())[..Min(requested, |old(b.Contents())|)]
    ensures result[..] + b.Contents() == old(b.Contents())
  {
    hide Overlay, ContentsOf;
    b.CountsTellContents();
    ghost var q := b.Contents();
    var count := Min(requested, b.NReadBytes());
    result := new byte[count](_ => 0);
    var rc := b.BufferRead(result, count);
    OverlayAll(q[..count], count);
  }

  /** `Buffer.peek`: on a ring, what the next `read` of the same size will return, the buffer unchanged.  On a
      linear buffer, as many bytes from the start of the storage, and the mutex is kept. */
  method PyPeek(b: Buffer, requested: nat) returns (result: array<byte>)
    requires b.Valid() && !b.locked && b.buf.Length < UINT_RANGE
    modifies b`locked
    ensures b.Model() == old(b.Model()) && b.locked == b.kind.LINEAR? && fresh(result)
    ensures var count := Min(requested, |b.Contents()|);
            count <= b.buf.Length && result[..] == if b.kind.RING? then b.Contents()[..count] else b.buf[..count]
  {
    hide Overlay, LinearQueue, Queue, View;
    b.CountsTellContents();
    PeekedAt(b.kind, b.Model(), requested);
    var count := Min(requested, b.NReadBytes());
    result := new byte[count](_ => 0);
    ghost var bytes := b.Viewing(0, count).bytes;
    var rc := b.BufferView(result, 0, count);
    OverlayAll(bytes, count);
  }

  /** A view at offset 0 of no more than is queued. */
  lemma PeekedAt(kind: Kind, b: Buf, requested: nat)
    requires ValidOf(kind, b) && |b.store| < UINT_RANGE
    ensures var count := Min(requested, |ContentsOf(kind, b)|);
            && count <= |b.store|
            && (kind.RING? ==> View(b, 0, count) == Bytes(Queue(b)[..count]))
            && (kind.LINEAR? ==> LinearView(b, 0, count) == Bytes(b.store[..count]))
  {
    var count := Min(requested, |ContentsOf(kind, b)|);
    if kind.RING? {
      CountsAgree(b);
      PeekFront(b, Queue(b), count);
    } else {
      LinearViewed(b, 0, count, count);
      assert b.store[0..count] == b.store[..count];
    }
  }

  lemma OverlayAll(data: seq<byte>, n: nat)
    requires |data| == n
    ensures forall s: seq<byte> :: |s| == n ==> Overlay(s, 0, data) == data
  {
    forall s: seq<byte> | |s| == n
      ensures Overlay(s, 0, data) == data
    {
      assert s[..0] == [] && s[n..] == [];
    }
  }

  /** What has been sent with the answers to the questions before `k`: each chunk has an answer of its own and is
      as long as that allows; a question not used was answered 0. */
  ghost predicate SentBefore(chunks: seq<seq<byte>>, asked: seq<nat>, k: nat, room: nat -> nat, size: nat) {
    && |asked| == |chunks|
    && (forall i, j :: 0 <= i < j < |asked| ==> asked[i] < asked[j])
    && (forall i :: 0 <= i < |asked| ==> asked[i] < k)
    && (forall i :: 0 <= i < |chunks| ==> 0 < |chunks[i]| == Min(room(asked[i]), size - |Flatten(chunks[..i])|))
    && (forall j :: 0 <= j < k && j !in asked ==> room(j) == 0)
  }

  lemma NotUsed(chunks: seq<seq<byte>>, asked: seq<nat>, k: nat, room: nat -> nat, size: nat)
    requires SentBefore(chunks, asked, k, room, size) && room(k) == 0
    ensures SentBefore(chunks, asked, k + 1, room, size)
  {
  }

  lemma Used(chunks: seq<seq<byte>>, asked: seq<nat>, k: nat, room: nat -> nat, size: nat, chunk: seq<byte>)
    requires SentBefore(chunks, asked, k, room, size) && 0 < |chunk| == Min(room(k), size - |Flatten(chunks)|)
    ensures SentBefore(chunks + [chunk], asked + [k], k + 1, room, size)
  {
    hide Flatten;
    var numbers := asked + [k];
    forall i | 0 <= i <= |chunks|
      ensures 0 < |(chunks + [chunk])[i]| == Min(room(numbers[i]), size - |Flatten((chunks + [chunk])[..i])|)
    {
      FrontOf(chunks, chunk, i);
    }
    forall j | 0 <= j < k + 1 && j !in numbers
      ensures room(j) == 0
    {
      InFront(asked, k, j);
    }
  }

  lemma FrontOf<T>(a: seq<T>, x: T, i: nat)
    requires i <= |a|
    ensures (a + [x])[..i] == a[..i] && a[..|a|] == a && (a + [x])[i] == if i < |a| then a[i] else x
  {
  }

  lemma InFront(asked: seq<nat>, k: nat, j: nat)
    requires j !in asked + [k]
    ensures j !in asked && j != k
  {
    assert (asked + [k])[|asked|] == k;
    assert forall i :: 0 <= i < |asked| ==> asked[i] == (asked + [k])[i];
  }

  /** The sending loop of `_hm_pulse_io_write`: `room(k)` is the stream's answer to the k-th question for its
      writable size, and `soon` promises that it is positive again and again.  The chunks handed over are, put
      together, the bytes to send.  The stream is asked anew for each; a chunk is as long as the answer and what
      is left allow, and a question not used was answered 0. */
  method SendChunks(paBuf: array<byte>, size: nat, room: nat -> nat, ghost soon: nat -> nat)
    returns (chunks: seq<seq<byte>>, asked: seq<nat>, written: nat)
    requires size <= paBuf.Length && forall k :: soon(k) >= k && room(soon(k)) > 0
    ensures Flatten(chunks) == paBuf[..size] && written == size
    ensures |asked| == |chunks| && forall i, j :: 0 <= i < j < |asked| ==> asked[i] < asked[j]
    ensures forall i :: 0 <= i < |chunks| ==>
              0 < |chunks[i]| == Min(room(asked[i]), written - |Flatten(chunks[..i])|)
    ensures forall i, k :: 0 <= i < |asked| && 0 <= k < asked[i] && k !in asked ==> room(k) == 0
  {
    hide SentBefore, Flatten;
    var left: nat, from: nat, k: nat := size, 0, 0;
    chunks, asked, written := [], [], 0;
    NothingSent(room, size);
    assert paBuf[..size][..0] == [];
    while left > 0
      invariant from + left == size && written == from
      invariant Flatten(chunks) == paBuf[..size][..from] && SentBefore(chunks, asked, k, room, size)
    {
      ghost var positive := soon(k);
      while room(k) == 0
        invariant k <= positive && room(positive) > 0 && SentBefore(chunks, asked, k, room, size)
        decreases positive - k
      {
        NotUsed(chunks, asked, k, room, size);
        k := k + 1;
      }
      var m := Min(room(k), left);
      NextChunk(chunks, paBuf[..size], from, m);
      ArraySlice(paBuf, size, from, from + m);
      Used(chunks, asked, k, room, size, paBuf[from..from + m]);
      chunks, asked := chunks + [paBuf[from..from + m]], asked + [k];
      k := k + 1;
      left, from, written := left - m, from + m, written + m;
    }
    assert paBuf[..size][..size] == paBuf[..size];
    WhatWasSent(chunks, asked, k, room, size);
  }

  lemma NothingSent(room: nat -> nat, size: nat)
    ensures SentBefore([], [], 0, room, size) && Flatten<byte>([]) == []
  {
  }

  lemma WhatWasSent(chunks: seq<seq<byte>>, asked: seq<nat>, k: nat, room: nat -> nat, written: nat)
    requires SentBefore(chunks, asked, k, room, written)
    ensures |asked| == |chunks| && forall i, j :: 0 <= i < j < |asked| ==> asked[i] < asked[j]
    ensures forall i :: 0 <= i < |chunks| ==>
              0 < |chunks[i]| == Min(room(asked[i]), written - |Flatten(chunks[..i])|)
    ensures forall i, k :: 0 <= i < |asked| && 0 <= k < asked[i] && k !in asked ==> room(k) == 0
  {
    hide Flatten;
  }

  /** `_hm_pulse_io_write`: the stream gets the first `n` queued bytes or as many as there are, in chunks as above,
      and the queue keeps the rest. */
  method PulseWrite(b: Buffer, n: nat, room: nat -> nat, ghost soon: nat -> nat)
    returns (chunks: seq<seq<byte>>, asked: seq<nat>, written: nat)
    requires b.Valid() && !b.locked && forall k :: soon(k) >= k && room(soon(k)) > 0
    modifies b`readPtr, b`writePtr, b`state, b`locked, set e | e in b.eventList
    ensures b.Valid() && !b.locked && written == Min(n, |old(b.Contents())|)
    ensures Flatten(chunks) == old(b.Contents())[..written] && Flatten(chunks) + b.Contents() == old(b.Contents())
    ensures |asked| == |chunks| && forall i, j :: 0 <= i < j < |asked| ==> asked[i] < asked[j]
    ensures forall i :: 0 <= i < |chunks| ==>
              0 < |chunks[i]| == Min(room(asked[i]), written - |Flatten(chunks[..i])|)
    ensures forall i, k :: 0 <= i < |asked| && 0 <= k < asked[i] && k !in asked ==> room(k) == 0
  {
    hide ContentsOf, Flatten, Overlay, CallOf;
    ghost var q := b.Contents();
    var paBuf := new byte[n](_ => 0);
    var size := b.BufferRead(paBuf, n);
    OverlayFront(paBuf, q[..size]);
    chunks, asked, written := SendChunks(paBuf, if size < n then size else n, room, soon);
    assert q[..size] + q[size..] == q;
  }

  lemma OverlayFront(a: array<byte>, data: seq<byte>)
    requires |data| <= a.Length && exists s: seq<byte> :: |s| == a.Length && a[..] == Overlay(s, 0, data)
    ensures a[..|data|] == data
  {
  }

  lemma NextChunk(chunks: seq<seq<byte>>, data: seq<byte>, from: nat, m: nat)
    requires from + m <= |data| && Flatten(chunks) == data[..from]
    ensures Flatten(chunks + [data[from..from + m]]) == data[..from + m]
  {
    assert (chunks + [data[from..from + m]])[..|chunks|] == chunks;
  }

  /** The first `k` fragments put together. */
  function Offered(fragment: nat -> seq<byte>, k: nat): seq<byte> {
    if k == 0 then [] else Offered(fragment, k - 1) + fragment(k - 1)
  }

  /** `_hm_pulse_io_read`: `fragment(k)` is what the k-th look at the stream shows, and `soon` promises that
      it is not empty again and again.  The buffer accepts every piece whole, and what it gains is a prefix of
      the fragments put together: as much as was asked for or as there was room for at the start.  No look is
      taken in vain. */
  method PulseRead(b: Buffer, n: nat, fragment: nat -> seq<byte>, ghost soon: nat -> nat)
    returns (looks: nat, total: nat)
    requires b.Valid() && !b.locked
    requires forall k :: soon(k) >= k && fragment(soon(k)) != []
    modifies b`readPtr, b`writePtr, b`state, b`locked, b.buf, set e | e in b.eventList
    ensures b.Valid() && !b.locked && total == Min(n, old(b.NWriteBytes()))
    ensures var offered := Offered(fragment, looks);
            total <= |offered| && b.Contents() == old(b.Contents()) + offered[..total]
    ensures looks > 0 ==> |Offered(fragment, looks - 1)| < total
  {
    hide ContentsOf, CallOf, Offered;
    b.CountsTellContents();
    NothingOffered(fragment);
    var left: nat := Min(n, b.NWriteBytes());
    ghost var q := b.Contents();
    looks, total := 0, 0;
    ghost var positive := soon(0);
    while left > 0
      invariant b.Valid() && !b.locked && left + total == Min(n, old(b.NWriteBytes()))
      invariant b.NWriteBytes() == old(b.NWriteBytes()) - total
      invariant total <= |Offered(fragment, looks)| && (left > 0 ==> total == |Offered(fragment, looks)|)
      invariant b.Contents() == q + Offered(fragment, looks)[..total]
      invariant looks > 0 ==> |Offered(fragment, looks - 1)| < left + total
      invariant looks > 0 && left == 0 ==> |Offered(fragment, looks - 1)| < total
      invariant positive >= looks && fragment(positive) != []
      decreases left, positive - looks
    {
      var piece := fragment(looks);
      var paBuf := new byte[|piece|](i requires 0 <= i < |piece| => piece[i]);
      assert paBuf[..] == piece;
      var m := Min(|piece|, left);
      var rc := b.BufferWrite(paBuf, m);
      assert rc == m && paBuf[..m] == piece[..m];
      NextPiece(q, fragment, looks, m);
      left, total, looks := left - m, total + m, looks + 1;
      if positive < looks {
        positive := soon(looks);
      }
    }
  }

  lemma NothingOffered(fragment: nat -> seq<byte>)
    ensures Offered(fragment, 0) == []
  {
  }

  lemma NextPiece(q: seq<byte>, fragment: nat -> seq<byte>, looks: nat, m: nat)
    requires m <= |fragment(looks)|
    ensures |Offered(fragment, looks + 1)| == |Offered(fragment, looks)| + |fragment(looks)|
    ensures var offered, more := Offered(fragment, looks), Offered(fragment, looks + 1);
            q + offered[..|offered|] + fragment(looks)[..m] == q + more[..|offered| + m]
  {
    var offered, piece := Offered(fragment, looks), fragment(looks);
    assert offered[..|offered|] == offered;
    assert (offered + piece)[..|offered| + m] == offered + piece[..m];
  }
}
