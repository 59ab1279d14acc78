/** The FIR filter (src/core/ops/dsp/filter.c) with the in-place shifts of src/core/dsp.c and the dot
    product of src/core/math.c, over real numbers. */
module Fir {
  import opened Bytes

  // ---- finite sums ----

  function Sum(f: int -> real, n: nat): real {
    if n == 0 then 0.0 else Sum(f, n - 1) + f(n - 1)
  }

  lemma {:induction false} SumEqual(f: int -> real, g: int -> real, n: nat)
    requires forall k :: 0 <= k < n ==> f(k) == g(k)
    ensures Sum(f, n) == Sum(g, n)
  {
    if n > 0 {
      SumEqual(f, g, n - 1);
    }
  }

  lemma {:induction false} SumAdd(f: int -> real, g: int -> real, h: int -> real, n: nat)
    requires forall k :: 0 <= k < n ==> h(k) == f(k) + g(k)
    ensures Sum(h, n) == Sum(f, n) + Sum(g, n)
  {
    if n > 0 {
      SumAdd(f, g, h, n - 1);
    }
  }

  /** Multiplication, under a name of its own so that proofs use only the laws they need. */
  function Times(a: real, b: real): real {
    a * b
  }

  lemma TimesZero(a: real)
    ensures Times(a, 0.0) == 0.0 == Times(0.0, a)
  {
  }

  lemma TimesSum(c: real, x: real, y: real)
    ensures Times(c, x + y) == Times(c, x) + Times(c, y) == Times(x + y, c)
  {
  }

  lemma TimesTurn(a: real, b: real, c: real)
    ensures Times(a, Times(b, c)) == Times(c, Times(a, b))
  {
  }

  lemma TimesCommutes(a: real, b: real)
    ensures Times(a, b) == Times(b, a)
  {
  }

  lemma {:induction false} SumScale(c: real, f: int -> real, g: int -> real, n: nat)
    requires forall k :: 0 <= k < n ==> g(k) == Times(c, f(k))
    ensures Sum(g, n) == Times(c, Sum(f, n))
  {
    hide Times;
    if n == 0 {
      TimesZero(c);
    } else {
      SumScale(c, f, g, n - 1);
      TimesSum(c, Sum(f, n - 1), f(n - 1));
    }
  }

  /** Terms that vanish can be left out at the end ... */
  lemma {:induction false} SumDropZeros(f: int -> real, n: nat, m: nat)
    requires n <= m && forall k :: n <= k < m ==> f(k) == 0.0
    ensures Sum(f, m) == Sum(f, n)
  {
    if n < m {
      SumDropZeros(f, n, m - 1);
    }
  }

  /** ... and at the start. */
  lemma {:induction false} SumShift(f: int -> real, g: int -> real, d: nat, n: nat)
    requires forall k :: 0 <= k < d ==> f(k) == 0.0
    requires forall k :: 0 <= k < n ==> f(k + d) == g(k)
    ensures Sum(f, n + d) == Sum(g, n)
  {
    if n == 0 {
      SumDropZeros(f, 0, d);
    } else {
      SumShift(f, g, d, n - 1);
      assert f((n - 1) + d) == g(n - 1);
    }
  }

  /** The sums of a table's rows, and of its columns. */
  ghost predicate SumsRows(f: (int, int) -> real, rows: int -> real, n: nat, m: nat) {
    forall i :: 0 <= i < n ==> rows(i) == Sum((j: int) => f(i, j), m)
  }

  ghost predicate SumsColumns(f: (int, int) -> real, columns: int -> real, n: nat, m: nat) {
    forall j :: 0 <= j < m ==> columns(j) == Sum((i: int) => f(i, j), n)
  }

  lemma {:induction false} SumSwap(f: (int, int) -> real, rows: int -> real, columns: int -> real, n: nat, m: nat)
    requires SumsRows(f, rows, n, m) && SumsColumns(f, columns, n, m)
    ensures Sum(rows, n) == Sum(columns, m)
  {
    if n == 0 {
      SumDropZeros(columns, 0, m);
    } else {
      var before := (j: int) => Sum((i: int) => f(i, j), n - 1);
      SumSwap(f, rows, before, n - 1, m);
      SumAdd(before, (j: int) => f(n - 1, j), columns, m);
    }
  }

  // ---- what the filter is meant to compute ----

  /** The sample at `i` of a signal that is silent before its start and after its end. */
  function At(x: seq<real>, i: int): real {
    if 0 <= i < |x| then x[i] else 0.0
  }

  /** One output sample: the discrete convolution of the coefficients with the signal at `i`. */
  function FirAt(b: seq<real>, x: seq<real>, i: int): real {
    Sum((k: int) => Times(At(b, k), At(x, i - k)), |b|)
  }

  /** The filtered signal, as long as the signal itself. */
  function Filtered(b: seq<real>, x: seq<real>): (y: seq<real>)
    ensures |y| == |x| && forall i :: 0 <= i < |x| ==> y[i] == FirAt(b, x, i)
  {
    seq(|x|, i => FirAt(b, x, i))
  }

  /** The convolution of two coefficient sequences, in full length. */
  function Convolve(b1: seq<real>, b2: seq<real>): (b: seq<real>)
    requires |b1| > 0 && |b2| > 0
    ensures |b| == |b1| + |b2| - 1 && forall k :: 0 <= k < |b| ==> b[k] == FirAt(b2, b1, k)
  {
    seq(|b1| + |b2| - 1, k => FirAt(b2, b1, k))
  }

  lemma SilentOutside(b: seq<real>, x: seq<real>, i: int)
    requires i < 0 || i >= |b| + |x| - 1
    ensures FirAt(b, x, i) == 0.0
  {
    hide Times;
    var term := (k: int) => Times(At(b, k), At(x, i - k));
    forall k | 0 <= k < |b|
      ensures term(k) == 0.0
    {
      TimesZero(At(b, k));
    }
    SumDropZeros(term, 0, |b|);
  }

  /** The convolved coefficients as one signal, silent outside. */
  lemma ConvolveAt(b1: seq<real>, b2: seq<real>, m: int)
    requires |b1| > 0 && |b2| > 0
    ensures At(Convolve(b1, b2), m) == FirAt(b2, b1, m)
  {
    hide FirAt;
    if m < 0 || m >= |b1| + |b2| - 1 {
      SilentOutside(b2, b1, m);
    }
  }

  /** The output sample at `i`, or silence before the start. */
  lemma FilteredAt(b: seq<real>, x: seq<real>, i: int)
    requires i < |x|
    ensures At(Filtered(b, x), i) == FirAt(b, x, i)
  {
    hide FirAt;
    if i < 0 {
      SilentOutside(b, x, i);
    }
  }

  // ---- what pins the filter down ----

  /** Impulse response: a single sample of size `c` brings out the coefficients one by one, times `c`.  Together
      with SplitSignal, which says that the responses to the pieces of a signal add up, this determines the
      filter. */
  lemma ImpulseResponse(b: seq<real>, c: real, i: int)
    ensures FirAt(b, [c], i) == if 0 <= i < |b| then b[i] * c else 0.0
  {
    var term := (k: int) => Times(At(b, k), At([c], i - k));
    forall k | 0 <= k < |b| && k != i
      ensures term(k) == 0.0
    {
    }
    if 0 <= i < |b| {
      SumDropZeros(term, i + 1, |b|);
      SumDropZeros(term, 0, i);
    } else {
      SumDropZeros(term, 0, |b|);
    }
  }

  /** The dot product grows by the product of the items added. */
  lemma DotGrows(a: seq<real>, b: seq<real>, n: nat)
    requires n < |a| && n < |b|
    ensures Dot(a, b, 0) == 0.0 && Dot(a, b, n + 1) == Dot(a, b, n) + a[n] * b[n]
  {
  }

  // ---- the cascade law ----

  /** Everything a cascade sums up for sample `i`: coefficient `k` of the second filter meeting, through the
      first, the sample `m` steps back. */
  function Entry(b1: seq<real>, b2: seq<real>, x: seq<real>, i: int, k: int, m: int): real {
    Times(At(b2, k), Times(At(b1, m - k), At(x, i - m)))
  }

  /** A coefficient sequence moved up by `k` places filters as the sequence itself does `k` samples ago. */
  lemma MovedUp(b1: seq<real>, x: seq<real>, i: int, k: nat, n: nat, moved: int -> real)
    requires |b1| + k <= n && forall m :: 0 <= m < n ==> moved(m) == Times(At(b1, m - k), At(x, i - m))
    ensures Sum(moved, n) == FirAt(b1, x, i - k)
  {
    hide Times;
    var plain := (m: int) => Times(At(b1, m), At(x, (i - k) - m));
    forall m | 0 <= m < n && !(k <= m < k + |b1|)
      ensures moved(m) == 0.0
    {
      TimesZero(At(x, i - m));
    }
    SumDropZeros(moved, |b1| + k, n);
    forall m | 0 <= m < |b1|
      ensures moved(m + k) == plain(m)
    {
    }
    SumShift(moved, plain, k, |b1|);
  }

  lemma CascadeRow(b1: seq<real>, b2: seq<real>, x: seq<real>, i: int, k: nat, n: nat, row: int -> real)
    requires i < |x| && |b1| + k <= n && forall m :: 0 <= m < n ==> row(m) == Entry(b1, b2, x, i, k, m)
    ensures Times(At(b2, k), At(Filtered(b1, x), i - k)) == Sum(row, n)
  {
    hide Times, FirAt, Filtered, At, Sum;
    FilteredAt(b1, x, i - k);
    var moved := (m: int) => Times(At(b1, m - k), At(x, i - m));
    MovedUp(b1, x, i, k, n, moved);
    SumScale(At(b2, k), moved, row, n);
  }

  lemma CascadeColumn(b1: seq<real>, b2: seq<real>, x: seq<real>, i: int, m: int, column: int -> real)
    requires |b1| > 0 && |b2| > 0 && forall k :: 0 <= k < |b2| ==> column(k) == Entry(b1, b2, x, i, k, m)
    ensures Times(At(Convolve(b1, b2), m), At(x, i - m)) == Sum(column, |b2|)
  {
    hide Times, Convolve, At, Sum;
    ConvolveAt(b1, b2, m);
    var c := At(x, i - m);
    var terms := (k: int) => Times(At(b2, k), At(b1, m - k));
    forall k | 0 <= k < |b2|
      ensures column(k) == Times(c, terms(k))
    {
      TimesTurn(At(b2, k), At(b1, m - k), c);
    }
    SumScale(c, terms, column, |b2|);
    TimesCommutes(c, FirAt(b2, b1, m));
  }

  lemma CascadeAt(b1: seq<real>, b2: seq<real>, x: seq<real>, i: int)
    requires |b1| > 0 && |b2| > 0 && i < |x|
    ensures FirAt(b2, Filtered(b1, x), i) == FirAt(Convolve(b1, b2), x, i)
  {
    hide Times, Convolve, Filtered, Entry;
    var n := |b1| + |b2| - 1;
    var f := (k: int, m: int) => Entry(b1, b2, x, i, k, m);
    var twice := (k: int) => Times(At(b2, k), At(Filtered(b1, x), i - k));
    var once := (m: int) => Times(At(Convolve(b1, b2), m), At(x, i - m));
    forall k | 0 <= k < |b2|
      ensures twice(k) == Sum((m: int) => f(k, m), n)
    {
      CascadeRow(b1, b2, x, i, k, n, (m: int) => f(k, m));
    }
    forall m | 0 <= m < n
      ensures once(m) == Sum((k: int) => f(k, m), |b2|)
    {
      CascadeColumn(b1, b2, x, i, m, (k: int) => f(k, m));
    }
    SumSwap(f, twice, once, |b2|, n);
  }

  /** Cascade law: filtering with `b1` and the result with `b2` is filtering once with their convolution. */
  lemma CascadeIsConvolution(b1: seq<real>, b2: seq<real>, x: seq<real>)
    requires |b1| > 0 && |b2| > 0
    ensures Filtered(b2, Filtered(b1, x)) == Filtered(Convolve(b1, b2), x)
  {
    hide FirAt, Convolve;
    forall i | 0 <= i < |x|
      ensures FirAt(b2, Filtered(b1, x), i) == FirAt(Convolve(b1, b2), x, i)
    {
      CascadeAt(b1, b2, x, i);
    }
  }

  // ---- the block law ----

  /** The response to a signal in two pieces is the sum of the responses to each. */
  lemma SplitSignal(b: seq<real>, x: seq<real>, y: seq<real>, i: int)
    ensures FirAt(b, x + y, i) == FirAt(b, x, i) + FirAt(b, y, i - |x|)
  {
    hide Times;
    var whole := (k: int) => Times(At(b, k), At(x + y, i - k));
    var left := (k: int) => Times(At(b, k), At(x, i - k));
    var right := (k: int) => Times(At(b, k), At(y, (i - |x|) - k));
    forall k | 0 <= k < |b|
      ensures whole(k) == left(k) + right(k)
    {
      TimesSum(At(b, k), At(x, i - k), At(y, i - |x| - k));
    }
    SumAdd(left, right, whole, |b|);
  }

  /** What a filter is still to give out of `x` after its end. */
  function Tail(b: seq<real>, x: seq<real>, n: nat): (t: seq<real>)
    ensures |t| == n && forall j :: 0 <= j < n ==> t[j] == FirAt(b, x, |x| + j)
  {
    seq(n, j => FirAt(b, x, |x| + j))
  }

  function Added(x: seq<real>, y: seq<real>): (z: seq<real>)
    requires |x| == |y|
    ensures |z| == |x| && forall i :: 0 <= i < |z| ==> z[i] == x[i] + y[i]
  {
    seq(|x|, i requires 0 <= i < |x| => x[i] + y[i])
  }

  /** Block law: filtering two blocks in one call gives the first block filtered, then the second block
      filtered on its own plus the tail of the first; the tail is over after one sample less than there
      are coefficients. */
  lemma BlocksOverlapByTheTail(b: seq<real>, x: seq<real>, y: seq<real>)
    ensures Filtered(b, x + y) == Filtered(b, x) + Added(Filtered(b, y), Tail(b, x, |y|))
    ensures forall j :: 0 <= j < |y| && |b| - 1 <= j ==> Tail(b, x, |y|)[j] == 0.0
  {
    hide FirAt;
    forall i | 0 <= i < |x| + |y|
      ensures Filtered(b, x + y)[i] == (Filtered(b, x) + Added(Filtered(b, y), Tail(b, x, |y|)))[i]
    {
      SplitSignal(b, x, y, i);
      if i < |x| {
        SilentOutside(b, y, i - |x|);
      }
    }
    forall j | 0 <= j < |y| && |b| - 1 <= j
      ensures Tail(b, x, |y|)[j] == 0.0
    {
      SilentOutside(b, x, |x| + j);
    }
  }

  /** Filtering block by block with separate calls gives the same as one call exactly when nothing of the
      first block rings on into the second. */
  lemma SeparateCallsAgree(b: seq<real>, x: seq<real>, y: seq<real>)
    ensures Filtered(b, x + y) == Filtered(b, x) + Filtered(b, y)
            <==> forall j :: 0 <= j < |y| && j < |b| - 1 ==> Tail(b, x, |y|)[j] == 0.0
  {
    hide FirAt, Filtered, Tail;
    BlocksOverlapByTheTail(b, x, y);
    var tail, plain := Tail(b, x, |y|), Filtered(b, y);
    var sum := Added(plain, tail);
    if Filtered(b, x + y) == Filtered(b, x) + plain {
      assert sum == (Filtered(b, x) + sum)[|x|..] == (Filtered(b, x) + plain)[|x|..] == plain;
      forall j | 0 <= j < |y|
        ensures tail[j] == 0.0
      {
        assert sum[j] == plain[j];
      }
    }
    if forall j :: 0 <= j < |y| && j < |b| - 1 ==> tail[j] == 0.0 {
      assert sum == plain;
    }
  }

  // ---- the code ----

  /** The items moved `n` places towards the end, zeros coming in at the start; a shift by the whole length
      or more clears. */
  function ShiftedUp<T>(s: seq<T>, n: nat, zero: T): seq<T> {
    if n >= |s| then Repeat(zero, |s|) else Repeat(zero, n) + s[..|s| - n]
  }

  function ShiftedDown<T>(s: seq<T>, n: nat, zero: T): seq<T> {
    if n >= |s| then Repeat(zero, |s|) else s[n..] + Repeat(zero, n)
  }

  /** Shifting up and back loses exactly the last `n` items. */
  lemma UpThenDown<T>(s: seq<T>, n: nat, zero: T)
    requires n <= |s|
    ensures ShiftedDown(ShiftedUp(s, n, zero), n, zero) == s[..|s| - n] + Repeat(zero, n)
  {
    if n < |s| {
      assert ShiftedUp(s, n, zero)[n..] == s[..|s| - n];
    } else {
      assert s[..|s| - n] + Repeat(zero, n) == Repeat(zero, n);
    }
  }

  /** `_buf_shift_up_64`: from the end, so that no item is overwritten before it has moved. */
  method ShiftUp<T>(buf: array<T>, nShift: nat, zero: T)
    modifies buf
    ensures buf[..] == ShiftedUp(old(buf[..]), nShift, zero)
    ensures forall j :: 0 <= j < buf.Length ==> buf[j] == if j < nShift then zero else old(buf[j - nShift])
  {
    var n := buf.Length;
    if nShift >= n {
      forall j | 0 <= j < n { buf[j] := zero; }
      assert buf[..] == Repeat(zero, n);
      return;
    }
    ghost var was := buf[..];
    var i := n - nShift - 1;
    while i >= 0
      invariant -1 <= i < n - nShift
      invariant forall j :: i + nShift < j < n ==> buf[j] == was[j - nShift]
      invariant forall j :: 0 <= j <= i + nShift ==> buf[j] == was[j]
    {
      buf[i + nShift] := buf[i];
      i := i - 1;
    }
    forall j | 0 <= j < nShift { buf[j] := zero; }
    assert buf[..] == Repeat(zero, nShift) + was[..n - nShift];
  }

  /** `_buf_shift_down_64`: from the start. */
  method ShiftDown<T>(buf: array<T>, nShift: nat, zero: T)
    modifies buf
    ensures buf[..] == ShiftedDown(old(buf[..]), nShift, zero)
    ensures forall j :: 0 <= j < buf.Length ==>
              buf[j] == if j + nShift < buf.Length then old(buf[j + nShift]) else zero
  {
    var n := buf.Length;
    if nShift >= n {
      forall j | 0 <= j < n { buf[j] := zero; }
      assert buf[..] == Repeat(zero, n);
      return;
    }
    ghost var was := buf[..];
    var i := 0;
    while i < n - nShift
      invariant 0 <= i <= n - nShift
      invariant forall j :: 0 <= j < i ==> buf[j] == was[j + nShift]
      invariant forall j :: i <= j < n ==> buf[j] == was[j]
    {
      buf[i] := buf[i + nShift];
      i := i + 1;
    }
    forall j | n - nShift <= j < n { buf[j] := zero; }
    assert buf[..] == was[nShift..] + Repeat(zero, nShift);
  }

  /** The sum of the products of the first `n` items at equal places. */
  function Dot(a: seq<real>, b: seq<real>, n: nat): real {
    Sum((k: int) => Times(At(a, k), At(b, k)), n)
  }

  /** `ddot`: in mode `f` the second sequence is read backwards, which makes the result the middle sample of
      the two sequences' convolution. */
  method Ddot(mode: char, a: array<real>, b: array<real>, len: nat) returns (res: real)
    requires len <= a.Length && len <= b.Length
    ensures mode != 'f' ==> res == Dot(a[..len], b[..len], len)
    ensures mode == 'f' ==> res == FirAt(a[..len], b[..len], len - 1)
  {
    ghost var u, v := a[..len], b[..len];
    res := 0.0;
    var i := 0;
    if mode == 'f' {
      ghost var term := (k: int) => Times(At(u, k), At(v, len - 1 - k));
      while i < len
        invariant 0 <= i <= len && res == Sum(term, i)
      {
        assert term(i) == a[i] * b[len - (i + 1)];
        res := res + a[i] * b[len - (i + 1)];
        i := i + 1;
      }
    } else {
      ghost var term := (k: int) => Times(At(u, k), At(v, k));
      while i < len
        invariant 0 <= i <= len && res == Sum(term, i)
      {
        assert term(i) == a[i] * b[i];
        res := res + a[i] * b[i];
        i := i + 1;
      }
    }
  }

  /** The delay line before sample `i` is taken in: the samples so far, the latest first, then silence. */
  function DelayLine(x: seq<real>, i: nat, order: nat): (d: seq<real>)
    requires i <= |x|
    ensures |d| == order && forall k :: 0 <= k < order ==> d[k] == At(x, i - 1 - k)
  {
    seq(order, k => At(x, i - 1 - k))
  }

  lemma DelayLineSteps(x: seq<real>, i: nat, order: nat)
    requires i < |x| && order > 0
    ensures ShiftedUp(DelayLine(x, i, order), 1, 0.0)[0 := x[i]] == DelayLine(x, i + 1, order)
  {
  }

  lemma DelayLineProduct(b: seq<real>, x: seq<real>, i: nat)
    requires i < |x|
    ensures Dot(DelayLine(x, i + 1, |b|), b, |b|) == FirAt(b, x, i)
  {
    hide Times;
    var d := DelayLine(x, i + 1, |b|);
    var term := (k: int) => Times(At(d, k), At(b, k));
    var direct := (k: int) => Times(At(b, k), At(x, i - k));
    forall k | 0 <= k < |b|
      ensures term(k) == direct(k)
    {
      TimesCommutes(At(b, k), At(x, i - k));
    }
    SumEqual(term, direct, |b|);
  }

  /** The body of the filter's loop: one sample goes into the delay line, one comes out. */
  method FilterSample(firBuf: array<real>, sample: real, b: array<real>, ghost x: seq<real>, ghost i: nat)
    returns (y: real)
    requires firBuf != b && firBuf.Length == b.Length >= 1
    requires i < |x| && sample == x[i] && firBuf[..] == DelayLine(x, i, b.Length)
    modifies firBuf
    ensures firBuf[..] == DelayLine(x, i + 1, b.Length) && y == FirAt(b[..], x, i)
  {
    hide FirAt, DelayLine, ShiftedUp, Dot;
    ShiftUp(firBuf, 1, 0.0);
    firBuf[0] := sample;
    DelayLineSteps(x, i, b.Length);
    y := Ddot('n', firBuf, b, b.Length);
    assert firBuf[..b.Length] == firBuf[..] && b[..b.Length] == b[..];
    DelayLineProduct(b[..], x, i);
  }

  /** `fir_filter`: whatever was in `dest`, and also when `dest` is `src` itself, its first `nSamples` items
      end up as the filtered signal and the others stay as they were. */
  method FirFilter(src: array<real>, dest: array<real>, nSamples: nat, b: array<real>) returns (nBytes: nat)
    requires nSamples <= src.Length && nSamples <= dest.Length && b.Length >= 1 && dest != b
    modifies dest
    ensures dest[..nSamples] == Filtered(b[..], old(src[..nSamples])) && nBytes == 8 * nSamples
    ensures forall j :: nSamples <= j < dest.Length ==> dest[j] == old(dest[j])
  {
    hide FirAt, DelayLine;
    ghost var x, coefs := src[..nSamples], b[..];
    var firBuf := new real[b.Length](_ => 0.0);
    assert firBuf[..] == DelayLine(x, 0, b.Length);
    var i := 0;
    while i < nSamples
      invariant 0 <= i <= nSamples && b[..] == coefs
      invariant firBuf[..] == DelayLine(x, i, b.Length)
      invariant forall j :: 0 <= j < i ==> dest[j] == FirAt(coefs, x, j)
      invariant forall j :: i <= j < nSamples ==> src[j] == x[j]
      invariant forall j :: nSamples <= j < dest.Length ==> dest[j] == old(dest[j])
    {
      var y := FilterSample(firBuf, src[i], b, x, i);
      dest[i] := y;
      i := i + 1;
    }
    nBytes := nSamples * 8;
  }
}
