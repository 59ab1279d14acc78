/** Bytes, C integer division and block copies, shared by the models of the C sources. */
module Bytes {
  newtype byte = x: int | 0 <= x < 0x100

  datatype Option<T> = None | Some(value: T)

  /** The values of C's `unsigned int`, and of `uint64_t`. */
  const UINT_RANGE := 0x1_0000_0000
  const U64_RANGE := 0x1_0000_0000_0000_0000

  type uint = x: nat | x < UINT_RANGE

  function Min(a: int, b: int): (m: int)
    ensures m <= a && m <= b && (m == a || m == b)
  {
    if a <= b then a else b
  }

  /** C's `%`: the remainder takes the sign of the dividend. */
  function CRem(a: int, n: int): int
    requires n > 0
  {
    if a >= 0 then a % n else -((-a) % n)
  }

  lemma ModWithinOneTurn(a: int, n: int)
    requires n > 0 && 0 <= a <= n
    ensures a % n == if a == n then 0 else a
  {
    var k := a / n;
    assert a == n * k + a % n;
    assert k >= 1 ==> n * k >= n;
    assert k <= -1 ==> n * k <= -n;
  }

  /** Within one turn either way the remainder is the dividend itself, a whole turn being nothing. */
  lemma CRemWithinOneTurn(a: int, n: int)
    requires n > 0 && -n <= a <= n
    ensures CRem(a, n) == if a == n || a == -n then 0 else a
  {
    ModWithinOneTurn(if a >= 0 then a else -a, n);
  }

  /** The bytes of `s` after `memcpy` has stored `data` from position `at` on. */
  function Overlay(s: seq<byte>, at: nat, data: seq<byte>): (r: seq<byte>)
    requires at + |data| <= |s|
    ensures |r| == |s|
    ensures forall i :: 0 <= i < |s| ==> r[i] == if at <= i < at + |data| then data[i - at] else s[i]
  {
    s[..at] + data + s[at + |data|..]
  }

  lemma OverlayNothing(s: seq<byte>)
    ensures Overlay(s, 0, []) == s
  {
  }

  /** Two copies in a row are one copy of the joined data. */
  lemma OverlayTwice(s: seq<byte>, a: seq<byte>, b: seq<byte>)
    requires |a| + |b| <= |s|
    ensures Overlay(Overlay(s, 0, a), |a|, b) == Overlay(s, 0, a + b)
  {
  }

  /** `memcpy` between two arrays, or two places of one array that do not overlap. */
  method CopyBytes(src: array<byte>, from: nat, dest: array<byte>, at: nat, n: nat)
    requires src != dest || from + n <= at || at + n <= from
    requires from + n <= src.Length && at + n <= dest.Length
    modifies dest
    ensures dest[..] == Overlay(old(dest[..]), at, old(src[from..from + n]))
  {
    forall i | 0 <= i < n {
      dest[at + i] := src[from + i];
    }
    assert dest[..] == old(dest[..])[..at] + old(src[from..from + n]) + old(dest[..])[at + n..];
  }

  lemma ArraySlice(a: array<byte>, n: nat, i: nat, j: nat)
    requires i <= j <= n <= a.Length
    ensures a[i..j] == a[..n][i..j] == a[..][i..j]
  {
    forall k | 0 <= k < j - i
      ensures a[i..j][k] == a[..n][i..j][k] == a[..][i..j][k]
    {
    }
  }

  // ---- sequences ----

  function Repeat<T>(x: T, n: nat): (s: seq<T>)
    ensures |s| == n && forall i :: 0 <= i < n ==> s[i] == x
  {
    seq(n, _ => x)
  }

  /** The pieces put together. */
  function Flatten<T>(pieces: seq<seq<T>>): seq<T> {
    if pieces == [] then [] else Flatten(pieces[..|pieces| - 1]) + pieces[|pieces| - 1]
  }

  lemma DropAppend<T>(a: seq<T>, b: seq<T>, k: nat)
    requires k <= |a|
    ensures (a + b)[k..] == a[k..] + b
  {
  }

  lemma DropDrop<T>(a: seq<T>, j: nat, k: nat)
    requires j + k <= |a|
    ensures a[j..][k..] == a[j + k..]
  {
  }

  lemma TakeDrop<T>(a: seq<T>, j: nat, k: nat)
    requires j + k <= |a|
    ensures a[j..][..k] == a[j..j + k]
  {
  }

  lemma FrontOfSuffix<T>(a: seq<T>, b: seq<T>, from: nat, q: seq<T>, k: nat)
    requires a <= b && from <= |a| && q == a[from..] && k <= |q|
    ensures from + k <= |b| && q[..k] == b[from..from + k]
  {
    TakeDrop(a, from, k);
  }

  lemma SliceConcat<T>(a: seq<T>, b: seq<T>, i: nat, n: nat)
    requires i <= |a| && i + n <= |a| + |b|
    ensures (a + b)[i..i + n] == if i + n <= |a| then a[i..i + n] else a[i..] + b[..i + n - |a|]
  {
  }

  lemma SplitsAt<T>(s: seq<T>, i: nat, j: nat)
    requires i <= j <= |s|
    ensures s[..j] == s[..i] + s[i..j]
  {
  }

  lemma Regroup<T>(a: seq<T>, b: seq<T>, c: seq<T>)
    ensures a + (b + c) == a + b + c
  {
  }

  lemma SliceSlice<T>(a: seq<T>, from: nat, to: nat, i: nat, j: nat)
    requires from <= to <= |a| && i <= j <= to - from
    ensures a[from..to][i..j] == a[from + i..from + j]
  {
    forall k | 0 <= k < j - i
      ensures a[from..to][i..j][k] == a[from + i..from + j][k]
    {
    }
  }

  /** `picked` are the items of `s` at the places `at`, which go up. */
  ghost predicate IsSelection<T>(s: seq<T>, picked: seq<T>, at: seq<nat>) {
    && |at| == |picked|
    && (forall a :: 0 <= a < |at| ==> at[a] < |s| && picked[a] == s[at[a]])
    && forall a, b :: 0 <= a < b < |at| ==> at[a] < at[b]
  }

  lemma SelectionGrows<T>(s: seq<T>, last: nat, picked: seq<T>, at: seq<nat>)
    requires |s| == last + 1 && IsSelection(s[..last], picked, at)
    ensures IsSelection(s, picked, at) && last !in at && IsSelection(s, picked + [s[last]], at + [last])
    ensures forall i :: i in at + [last] <==> i in at || i == last
  {
  }
}
