/** The growable arrays of src/core/common.c and their conversions to and from lists, with `u64sum` of
    src/core/math.c. */
module Arrays {
  import opened Bytes
  import opened Lists

  function Total(s: seq<nat>): nat {
    if s == [] then 0 else Total(s[..|s| - 1]) + s[|s| - 1]
  }

  /** `u64sum`: the sum modulo 2^64. */
  method U64Sum(buf: array<nat>, len: nat) returns (res: nat)
    requires len <= buf.Length
    ensures res == Total(buf[..len]) % U64_RANGE
  {
    res := 0;
    var i := 0;
    while i < len
      invariant 0 <= i <= len && res == Total(buf[..i]) % U64_RANGE
    {
      assert buf[..i + 1][..i] == buf[..i];
      res := (res + buf[i]) % U64_RANGE;
      i := i + 1;
    }
  }

  /** Sizes and counts of 32 bits cannot make the sum wrap. */
  lemma {:induction false} TotalFits(s: seq<nat>)
    requires |s| < UINT_RANGE && forall i :: 0 <= i < |s| ==> s[i] < UINT_RANGE
    ensures Total(s) <= |s| * UINT_RANGE < U64_RANGE
  {
    if s != [] {
      TotalFits(s[..|s| - 1]);
    }
  }

  /** What a node carries, and what all nodes of a list carry, one after the other. */
  ghost predicate Carries(nodes: seq<Node>)
    reads nodes
  {
    forall i {:trigger nodes[i].dataSize} :: 0 <= i < |nodes| ==> nodes[i].dataSize <= |nodes[i].data|
  }

  ghost function Payloads(nodes: seq<Node>): (p: seq<seq<byte>>)
    requires Carries(nodes)
    reads nodes
    ensures |p| == |nodes| && forall i :: 0 <= i < |nodes| ==> p[i] == nodes[i].data[..nodes[i].dataSize]
  {
    seq(|nodes|, i requires 0 <= i < |nodes| && Carries(nodes) reads nodes => nodes[i].data[..nodes[i].dataSize])
  }

  ghost function Lengths(p: seq<seq<byte>>): (s: seq<nat>)
    ensures |s| == |p| && forall i :: 0 <= i < |p| ==> s[i] == |p[i]|
  {
    seq(|p|, i requires 0 <= i < |p| => |p[i]|)
  }

  lemma {:induction false} FlatLength(p: seq<seq<byte>>)
    ensures |Flatten(p)| == Total(Lengths(p))
  {
    if p != [] {
      FlatLength(p[..|p| - 1]);
      assert Lengths(p)[..|p| - 1] == Lengths(p[..|p| - 1]);
    }
  }

  lemma {:induction false} FlatGrows(p: seq<seq<byte>>, i: nat)
    requires i <= |p|
    ensures Flatten(p[..i]) <= Flatten(p)
  {
    if i == |p| {
      assert p[..i] == p;
    } else {
      FlatGrows(p[..|p| - 1], i);
      assert p[..|p| - 1][..i] == p[..i];
    }
  }

  /** Payloads all of one size can be told apart again in their concatenation. */
  lemma {:induction false} FlatSplits(p: seq<seq<byte>>, size: nat, k: nat)
    requires k < |p| && forall i :: 0 <= i < |p| ==> |p[i]| == size
    ensures |Flatten(p)| == |p| * size && k * size + size <= |p| * size
    ensures Flatten(p)[k * size..k * size + size] == p[k]
  {
    var last := |p| - 1;
    assert |p| * size == last * size + size;
    if k < last {
      FlatSplits(p[..last], size, k);
      assert p[..last][k] == p[k];
      SliceConcat(Flatten(p[..last]), p[last], k * size, size);
    } else {
      UniformLength(p[..last], size);
    }
  }

  lemma {:induction false} UniformLength(p: seq<seq<byte>>, size: nat)
    requires forall i :: 0 <= i < |p| ==> |p[i]| == size
    ensures |Flatten(p)| == |p| * size
  {
    if p != [] {
      UniformLength(p[..|p| - 1], size);
      assert |p| * size == (|p| - 1) * size + size;
    }
  }

  /** The bytes that `n` items take. */
  function Span(n: nat, size: nat): nat {
    n * size
  }

  /** The bytes of item `k`, for items of one size. */
  ghost function ItemOf(bytes: seq<byte>, size: nat, k: nat): seq<byte> {
    var at := Span(k, size);
    if at + size <= |bytes| then bytes[at..at + size] else []
  }

  /** The node that carries the bytes: of a reference list's node, the one it stands for. */
  ghost function Carrier(isRef: bool, node: Node): Node? {
    if isRef then node.referent else node
  }

  /** The node carries item `k` and says that it carries `said` bytes. */
  ghost predicate IsItem(isRef: bool, node: Node, bytes: seq<byte>, size: nat, k: nat, said: nat) {
    var c := Carrier(isRef, node);
    c != null && c.data == ItemOf(bytes, size, k) && c.dataSize == said && c.freeable
  }

  /** The nodes carry the first items, one each, in order. */
  ghost predicate IsItems(isRef: bool, nodes: seq<Node>, bytes: seq<byte>, size: nat, said: nat -> nat) {
    forall k :: 0 <= k < |nodes| ==> IsItem(isRef, nodes[k], bytes, size, k, said(k))
  }

  lemma NoItems(isRef: bool, nodes: seq<Node>, bytes: seq<byte>, size: nat, said: nat -> nat)
    requires nodes == []
    ensures IsItems(isRef, nodes, bytes, size, said)
  {
  }

  lemma OneMoreItem(
    isRef: bool, before: seq<Node>, after: seq<Node>, from: nat, bytes: seq<byte>, size: nat, said: nat -> nat)
    requires from <= |before| && |after| == |before| + 1 && after[..|before|] == before
    requires IsItems(isRef, before[from..], bytes, size, said)
    requires IsItem(isRef, after[|before|], bytes, size, |before| - from, said(|before| - from))
    ensures IsItems(isRef, after[from..], bytes, size, said) && after[..from] == before[..from]
  {
    hide IsItem;
    var nodes := after[from..];
    forall k | 0 <= k < |nodes|
      ensures IsItem(isRef, nodes[k], bytes, size, k, said(k))
    {
      if k < |before| - from {
        assert nodes[k] == after[..|before|][from + k] == before[from..][k];
      }
    }
    assert after[..|before|][..from] == after[..from];
  }

  class HmArray {
    var buf: array?<byte>
    var nItems: uint
    var nItemsAlloc: uint
    const itemSize: uint

    /** The items in use are allocated, and what is called allocated there is room for. */
    ghost predicate Valid()
      reads this
    {
      if buf == null then nItems == nItemsAlloc == 0
      else nItems <= nItemsAlloc && Span(nItemsAlloc, itemSize) <= buf.Length
    }

    ghost function Contents(): (s: seq<byte>)
      requires Valid()
      reads this, buf
      ensures |s| == Span(nItems, itemSize)
    {
      if buf == null then []
      else
        Scale(nItems, nItemsAlloc, itemSize);
        buf[..Span(nItems, itemSize)]
    }

    /** The bytes that are really there. */
    ghost function Capacity(): nat
      reads this
    {
      if buf == null then 0 else buf.Length
    }

    constructor (itemSize: uint)
      ensures Valid() && Contents() == [] && this.itemSize == itemSize && nItemsAlloc == 0 && buf == null
    {
      this.itemSize := itemSize;
      buf, nItems, nItemsAlloc := null, 0, 0;
    }

    /** `hm_array_resize`: twice as much is allocated as is then counted. */
    method Resize(n: uint)
      requires Valid()
      modifies this`buf, this`nItemsAlloc
      ensures Valid() && Contents() == old(Contents()) && nItemsAlloc >= n && (n > 0 ==> buf != null)
      ensures buf == old(buf) || fresh(buf)
      ensures nItemsAlloc == if old(nItemsAlloc) < n then n else old(nItemsAlloc)
      ensures if n <= old(nItemsAlloc) then buf == old(buf) else buf.Length == 2 * (n * itemSize)
    {
      if nItemsAlloc < n {
        hide Contents, Span;
        ghost var items := Contents();
        FrontIsContents();
        Scale(nItems, n, itemSize);
        var newBuf := Realloc(2 * Span(n, itemSize));
        assert newBuf[..|items|] == items;
        buf := newBuf;
        nItemsAlloc := n;
        ContentsAre(items);
      }
    }

    /** `realloc`: new storage that starts with the bytes of the old one, as far as they fit. */
    method Realloc(size: nat) returns (newBuf: array<byte>)
      ensures fresh(newBuf) && newBuf.Length == size
      ensures buf != null ==> forall i :: 0 <= i < Min(size, buf.Length) ==> newBuf[i] == buf[i]
    {
      newBuf := new byte[size](_ => 0);
      if buf != null {
        CopyBytes(buf, 0, newBuf, 0, Min(buf.Length, size));
        assert forall i :: 0 <= i < newBuf.Length ==> newBuf[i] == newBuf[..][i];
      }
    }

    /** `hm_array_clear`. */
    method Clear()
      modifies this
      ensures Valid() && Contents() == [] && nItems == nItemsAlloc == 0 && buf == null
    {
      buf, nItems, nItemsAlloc := null, 0, 0;
    }

    /** `hm_array_copy_raw`: `n` items from position `from` of `src` on. */
    method CopyRaw(src: array<byte>, from: nat, n: uint)
      requires Valid() && from + Span(n, itemSize) <= src.Length && src != buf
      modifies this, buf
      ensures Valid() && nItems == n && Contents() == src[from..from + Span(n, itemSize)]
      ensures buf == old(buf) || fresh(buf)
    {
      hide Contents, Span;
      ghost var data := src[from..from + Span(n, itemSize)];
      Resize(n);
      nItems := n;
      if buf != null {
        Scale(n, nItemsAlloc, itemSize);
        CopyBytes(src, from, buf, 0, Span(n, itemSize));
        ArraySlice(buf, buf.Length, 0, |data|);
        assert buf[..|data|] == buf[0..|data|];
        ContentsAre(data);
      } else {
        SpanOfNone(itemSize);
        FrontIsContents();
      }
    }

    /** How `n2` items join `n1`: the item count is kept to 32 bits.  If it is cut, the copied bytes stay inside
        the `room` there is or do not, and in either case they and some items before them are not counted. */
    ghost predicate Joins(
      n1: nat, s1: seq<byte>, n2: nat, s2: seq<byte>, room: nat, inside: bool, n: nat, s: seq<byte>)
    {
      if n1 + n2 < UINT_RANGE then inside && n == n1 + n2 && s == s1 + s2
      else
        inside == (Span(n1 + n2, itemSize) <= room)
        && (inside ==> n == n1 + n2 - UINT_RANGE && Span(n, itemSize) <= |s1| && s == s1[..Span(n, itemSize)])
    }

    lemma JoinsNothing(n2: nat, s2: seq<byte>, room: nat, inside: bool, n: nat, s: seq<byte>)
      requires Joins(0, [], n2, s2, room, inside, n, s) && n2 < UINT_RANGE
      ensures inside && n == n2 && s == s2
    {
      assert [] + s2 == s2;
    }

    /** `hm_array_concat`, also of an array with itself. */
    method Concat(other: HmArray) returns (inside: bool)
      requires Valid() && other.Valid() && other.itemSize == itemSize
      requires other != this && buf != null ==> other.buf != buf
      modifies this, buf
      ensures Valid()
      ensures Joins(old(nItems), old(Contents()), old(other.nItems), old(other.Contents()), old(Capacity()),
                    inside, nItems, Contents())
      ensures old(nItems) + old(other.nItems) < UINT_RANGE ==>
                inside && nItems == old(nItems) + old(other.nItems)
                && Contents() == old(Contents()) + old(other.Contents())
    {
      if nItems + other.nItems < UINT_RANGE {
        ConcatCounted(other);
        inside := true;
      } else {
        inside := ConcatCut(other);
      }
    }

    method ConcatCounted(other: HmArray)
      requires Valid() && other.Valid() && other.itemSize == itemSize && nItems + other.nItems < UINT_RANGE
      requires other != this && buf != null ==> other.buf != buf
      modifies this, buf
      ensures Valid() && nItems == old(nItems) + old(other.nItems)
      ensures Contents() == old(Contents()) + old(other.Contents())
    {
      ghost var mine, theirs := Contents(), other.Contents();
      var newSize := nItems + other.nItems;
      var at: nat, len: nat := Span(nItems, itemSize), Span(other.nItems, itemSize);
      Resize(newSize);
      other.FrontIsContents();
      FrontIsContents();
      Product(nItems, other.nItems, itemSize);
      Scale(newSize, nItemsAlloc, itemSize);
      if buf != null && other.buf != null {
        CopyAfter(other.buf, at, len);
      }
      SetItems(newSize, at + len, mine + theirs);
    }

    /** The count wraps around: nothing is allocated. */
    method ConcatCut(other: HmArray) returns (inside: bool)
      requires Valid() && other.Valid() && other.itemSize == itemSize && nItems + other.nItems >= UINT_RANGE
      requires other != this && buf != null ==> other.buf != buf
      modifies this, buf
      ensures Valid() && inside == (Span(old(nItems) + old(other.nItems), itemSize) <= old(Capacity()))
      ensures inside ==> var len := Span(nItems, itemSize);
                         nItems == old(nItems) + old(other.nItems) - UINT_RANGE
                         && len <= |old(Contents())| && Contents() == old(Contents())[..len]
    {
      hide Contents, Span;
      ghost var mine := Contents();
      var newSize := nItems + other.nItems - UINT_RANGE;
      var at: nat, len: nat := Span(nItems, itemSize), Span(other.nItems, itemSize);
      Product(nItems, other.nItems, itemSize);
      Resize(newSize);
      if buf.Length < at + len {
        return false;
      }
      other.FrontIsContents();
      FrontIsContents();
      CopyAfter(other.buf, at, len);
      assert buf[..at] == buf[..at + len][..at] == mine;
      CountFirst(newSize, mine);
      inside := true;
    }

    method CountFirst(n: uint, ghost mine: seq<byte>)
      requires buf != null && n <= nItems <= nItemsAlloc && Span(nItemsAlloc, itemSize) <= buf.Length
      requires |mine| == Span(nItems, itemSize) <= buf.Length && buf[..|mine|] == mine
      modifies this`nItems
      ensures Valid() && nItems == n && Span(n, itemSize) <= |mine| && Contents() == mine[..Span(n, itemSize)]
    {
      Scale(n, nItems, itemSize);
      Scale(n, nItemsAlloc, itemSize);
      assert buf[..Span(n, itemSize)] == buf[..|mine|][..Span(n, itemSize)];
      nItems := n;
    }

    lemma ContentsAre(items: seq<byte>)
      requires Valid() && buf != null && |items| == Span(nItems, itemSize) <= buf.Length && buf[..|items|] == items
      ensures Contents() == items
    {
    }

    lemma FrontIsContents()
      requires Valid()
      ensures |Contents()| == Span(nItems, itemSize)
      ensures buf == null ==> Contents() == [] && nItems == 0
      ensures buf != null ==> |Contents()| <= buf.Length && buf[..|Contents()|] == Contents()
    {
      Scale(nItems, nItemsAlloc, itemSize);
    }

    /** Copying bytes behind those in use. */
    method CopyAfter(src: array<byte>, at: nat, len: nat)
      requires buf != null && (src != buf || len <= at) && at + len <= buf.Length && len <= src.Length
      modifies buf
      ensures buf[..at + len] == old(buf[..at]) + old(src[..len])
    {
      CopyBytes(src, 0, buf, at, len);
      assert old(src[0..len]) == old(src[..len]);
      assert buf[..at + len] == buf[..][..at + len];
    }

    method SetItems(n: uint, len: nat, ghost data: seq<byte>)
      requires buf != null ==> n <= nItemsAlloc && Span(nItemsAlloc, itemSize) <= buf.Length
      requires buf == null ==> n == nItemsAlloc == 0 && data == []
      requires len == Span(n, itemSize) && (buf != null ==> len <= buf.Length && buf[..len] == data)
      modifies this`nItems
      ensures Valid() && nItems == n && Contents() == data
    {
      nItems := n;
    }

    /** `hm_array_concat_raw`, by way of a temporary array, so that the data may lie in the array itself. */
    method ConcatRaw(data: array<byte>, from: nat, n: uint) returns (inside: bool)
      requires Valid() && from + Span(n, itemSize) <= data.Length
      modifies this, buf
      ensures Valid()
      ensures Joins(old(nItems), old(Contents()), n, old(data[from..from + Span(n, itemSize)]), old(Capacity()),
                    inside, nItems, Contents())
      ensures old(nItems) + n < UINT_RANGE ==>
                inside && nItems == old(nItems) + n
                && Contents() == old(Contents()) + old(data[from..from + Span(n, itemSize)])
    {
      hide Joins;
      var tmp := new HmArray(itemSize);
      tmp.CopyRaw(data, from, n);
      inside := Concat(tmp);
    }

    /** `hm_array_copy_list`: the payloads of the nodes, one after the other, join the array, one item for each
        node.  That many items are taken out of the joined payloads, so they must be at least as long. */
    method CopyList(list: List, overwrite: bool) returns (inside: bool)
      requires Valid() && list.Valid() && Carries(list.nodes)
      requires |list.nodes| < UINT_RANGE && forall i :: 0 <= i < |list.nodes| ==> list.nodes[i].dataSize < UINT_RANGE
      requires Span(|list.nodes|, itemSize) <= |Flatten(Payloads(list.nodes))|
      modifies this, buf
      ensures Valid()
      ensures var taken := Flatten(Payloads(list.nodes))[..Span(|list.nodes|, itemSize)];
              if overwrite then inside && nItems == |list.nodes| && Contents() == taken
              else Joins(old(nItems), old(Contents()), |list.nodes|, taken, old(Capacity()), inside, nItems, Contents())
    {
      hide Flatten, Total, Linked, Distinct, Entry, Joins, Contents, Span;
      ghost var p := Payloads(list.nodes);
      if overwrite {
        Clear();
      }
      var newData := JoinedPayloads(list);
      ghost var room := Capacity();
      ghost var taken := Flatten(p)[..Span(|list.nodes|, itemSize)];
      assert newData[0..0 + Span(|list.nodes|, itemSize)] == taken;
      inside := ConcatRaw(newData, 0, list.nItems);
      if overwrite {
        JoinsNothing(|list.nodes|, taken, room, inside, nItems, Contents());
      }
    }

    /** `hm_list_copy_array`: a new node for each item joins the list, or a new node standing for it if it is a
        reference list.  Its `data_size` is not set: `left(k)` is what the memory of the k-th held. */
    method CopyToList(list: List, overwrite: bool, left: nat -> nat) returns (freed: seq<Node>)
      requires Valid() && list.Valid()
      modifies list, list.nodes
      ensures list.Valid() && freed == if overwrite then Freeable(old(list.nodes)) else []
      ensures var kept := if overwrite then [] else old(list.nodes);
              |list.nodes| == |kept| + nItems && list.nodes[..|kept|] == kept
              && IsItems(list.isRef, list.nodes[|kept|..], Contents(), itemSize, left)
    {
      hide Linked, Distinct, Entry, Freeable, IsItems, IsItem, Contents, Span;
      freed := [];
      if overwrite {
        freed := list.Clear();
      }
      ghost var kept, bytes := list.nodes, Contents();
      var itr: nat := 0;
      NoItems(list.isRef, list.nodes[|kept|..], bytes, itemSize, left);
      while itr < nItems
        invariant 0 <= itr <= nItems && list.Valid()
        invariant |list.nodes| == |kept| + itr && list.nodes[..|kept|] == kept
        invariant IsItems(list.isRef, list.nodes[|kept|..], bytes, itemSize, left)
        invariant forall j :: 0 <= j < |list.nodes| ==> list.nodes[j] in old(list.nodes) || fresh(list.nodes[j])
        invariant Valid() && Contents() == bytes
      {
        ghost var before := list.nodes;
        AppendItem(list, itr, left(itr));
        OneMoreItem(list.isRef, before, list.nodes, |kept|, bytes, itemSize, left);
        itr := itr + 1;
      }
    }

    method AppendItem(list: List, k: nat, left: nat)
      requires Valid() && list.Valid() && k < nItems
      modifies list, list.nodes
      ensures list.Valid() && |list.nodes| == |old(list.nodes)| + 1
      ensures list.nodes[..|old(list.nodes)|] == old(list.nodes)
      ensures var node := list.nodes[|old(list.nodes)|];
              fresh(node) && IsItem(list.isRef, node, Contents(), itemSize, k, left)
    {
      hide Linked, Distinct, Entry, Contents, Span, ItemOf;
      ItemInside(k);
      var node := new Node(buf[Span(k, itemSize)..Span(k, itemSize) + itemSize], left, true);
      list.Append(node);
    }

    lemma ItemInside(k: nat)
      requires Valid() && k < nItems
      ensures buf != null && |Contents()| <= buf.Length && Span(k, itemSize) + itemSize <= |Contents()|
      ensures buf[Span(k, itemSize)..Span(k, itemSize) + itemSize] == ItemOf(Contents(), itemSize, k)
    {
      hide Contents, Span;
      FrontIsContents();
      Scale(k + 1, nItems, itemSize);
      Product(k, 1, itemSize);
      SpanOfOne(itemSize);
      var at := Span(k, itemSize);
      ArraySlice(buf, |Contents()|, at, at + itemSize);
    }

    /** `hm_array_at`: where an item starts, or NULL (here -1) past the last. */
    method At(index: uint) returns (offset: int)
      requires Valid()
      ensures offset == if index < nItems then index * itemSize else -1
      ensures index < nItems ==> 0 <= offset && offset + itemSize <= |Contents()|
    {
      if index < nItems {
        Scale(index + 1, nItems, itemSize);
        Product(index, 1, itemSize);
        return Span(index, itemSize);
      }
      return -1;
    }
  }

  lemma SpanOfNone(size: nat)
    ensures Span(0, size) == 0
  {
  }

  lemma SpanOfOne(size: nat)
    ensures Span(1, size) == size
  {
  }

  lemma Product(a: nat, b: nat, size: nat)
    ensures Span(a + b, size) == Span(a, size) + Span(b, size)
  {
  }

  lemma Scale(a: nat, b: nat, size: nat)
    requires a <= b
    ensures Span(a, size) <= Span(b, size)
  {
    Product(a, b - a, size);
  }

  /** `get_list_data` called on every node: pointers to the payloads and their sizes. */
  method GetListData(list: List) returns (datas: array<seq<byte>>, lens: array<nat>)
    requires list.Valid() && Carries(list.nodes)
    ensures fresh(datas) && fresh(lens) && datas[..] == Payloads(list.nodes)
    ensures lens.Length == |list.nodes| && lens[..] == Lengths(Payloads(list.nodes))
  {
    hide Linked, Distinct, Payloads, Lengths;
    ghost var p := Payloads(list.nodes);
    datas := new seq<byte>[list.nItems](_ => []);
    lens := new nat[list.nItems](_ => 0);
    var node := list.head;
    var itr := 0;
    while node != null
      invariant 0 <= itr <= |list.nodes| && node == Entry(list.nodes, itr)
      invariant forall k :: 0 <= k < itr ==> datas[k] == p[k] && lens[k] == |p[k]|
      decreases |list.nodes| - itr
    {
      datas[itr] := node.data[..node.dataSize];
      lens[itr] := node.dataSize;
      NextOf(list, itr);
      node := node.next;
      itr := itr + 1;
    }
    assert datas[..] == p;
    assert lens[..] == Lengths(p);
  }

  lemma NextOf(list: List, k: nat)
    requires list.Valid() && k < |list.nodes|
    ensures list.nodes[k].next == Entry(list.nodes, k + 1)
  {
  }

  /** The first half of `hm_array_copy_list`: the payloads of a list in one piece of memory. */
  method JoinedPayloads(list: List) returns (newData: array<byte>)
    requires list.Valid() && Carries(list.nodes)
    requires |list.nodes| < UINT_RANGE && forall i :: 0 <= i < |list.nodes| ==> list.nodes[i].dataSize < UINT_RANGE
    ensures fresh(newData) && newData[..] == Flatten(Payloads(list.nodes))
  {
    hide Flatten, Total, Linked, Distinct, Entry;
    ghost var p := Payloads(list.nodes);
    var datas, lens := GetListData(list);
    var newLen := U64Sum(lens, lens.Length);
    assert lens[..lens.Length] == lens[..];
    TotalFits(Lengths(p));
    FlatLength(p);
    newData := Joined(datas, newLen);
  }

  /** The copying loop of `hm_array_copy_list`: its running offset ends at the sum of the sizes. */
  method Joined(datas: array<seq<byte>>, newLen: nat) returns (newData: array<byte>)
    requires newLen == |Flatten(datas[..])|
    ensures fresh(newData) && newData[..] == Flatten(datas[..])
  {
    ghost var p := datas[..];
    newData := new byte[newLen](_ => 0);
    var itr, offset := 0, 0;
    while itr < datas.Length
      invariant 0 <= itr <= datas.Length && offset == |Flatten(p[..itr])| && datas[..] == p
      invariant offset <= newLen && newData[..offset] == Flatten(p[..itr])
    {
      assert p[..itr + 1][..itr] == p[..itr];
      FlatGrows(p, itr + 1);
      var len := |datas[itr]|;
      forall i | 0 <= i < len { newData[offset + i] := datas[itr][i]; }
      assert newData[..offset + len] == Flatten(p[..itr]) + p[itr];
      itr, offset := itr + 1, offset + len;
    }
    assert p[..itr] == p;
    assert newData[..newLen] == newData[..];
  }

  /** List to array to list: copying a list of payloads of one size into an array and that array into a
      list gives the payloads back, one node each, in order. */
  method CopyThere(arr: HmArray, from: List, to: List, left: nat -> nat) returns (freed: seq<Node>)
    requires arr.Valid() && from.Valid() && to.Valid() && from != to && Carries(from.nodes)
    requires |from.nodes| < UINT_RANGE
    requires forall i :: 0 <= i < |from.nodes| ==> from.nodes[i].dataSize == arr.itemSize
    requires forall i :: 0 <= i < |to.nodes| ==> to.nodes[i] !in from.nodes
    modifies arr, arr.buf, to, to.nodes
    ensures to.Valid() && |to.nodes| == |from.nodes|
    ensures forall k :: 0 <= k < |to.nodes| ==>
              var c := Carrier(to.isRef, to.nodes[k]); c != null && c.data == Payloads(from.nodes)[k]
  {
    hide Linked, Distinct, Entry, Freeable, Flatten, IsItems;
    ghost var p := Payloads(from.nodes);
    UniformLength(p, arr.itemSize);
    var inside := arr.CopyList(from, true);
    assert arr.Contents() == Flatten(p);
    freed := arr.CopyToList(to, true, left);
    assert to.nodes[0..] == to.nodes;
    ItemsArePayloads(to.isRef, to.nodes, p, arr.itemSize, left);
  }

  lemma ItemsArePayloads(isRef: bool, nodes: seq<Node>, p: seq<seq<byte>>, size: nat, said: nat -> nat)
    requires |nodes| == |p| && IsItems(isRef, nodes, Flatten(p), size, said)
    requires forall i :: 0 <= i < |p| ==> |p[i]| == size
    ensures forall k :: 0 <= k < |nodes| ==> var c := Carrier(isRef, nodes[k]); c != null && c.data == p[k]
  {
    forall k | 0 <= k < |nodes|
      ensures var c := Carrier(isRef, nodes[k]); c != null && c.data == p[k]
    {
      assert IsItem(isRef, nodes[k], Flatten(p), size, k, said(k));
      FlatSplits(p, size, k);
    }
  }

  // ---- array to list to array ----

  /** A list of nodes that carry `size` bytes each can be copied into an array of such items, without reading
      past a payload or past their concatenation, if and only if every node's `data_size` says so. */
  lemma CopiesBackIff(nodes: seq<Node>, size: nat)
    requires forall i :: 0 <= i < |nodes| ==> |nodes[i].data| == size
    ensures (Carries(nodes) && |nodes| * size <= |Flatten(Payloads(nodes))|)
            <==> forall i :: 0 <= i < |nodes| ==> nodes[i].dataSize == size
  {
    if Carries(nodes) {
      FullIff(Payloads(nodes), size);
    }
  }

  /** Pieces of at most `size` bytes are as long as that many full ones only if they are all full. */
  lemma {:induction false} FullIff(p: seq<seq<byte>>, size: nat)
    requires forall i :: 0 <= i < |p| ==> |p[i]| <= size
    ensures |Flatten(p)| <= |p| * size
    ensures |p| * size <= |Flatten(p)| <==> forall i :: 0 <= i < |p| ==> |p[i]| == size
  {
    if p != [] {
      var last := |p| - 1;
      FullIff(p[..last], size);
      Product(last, 1, size);
      assert forall i :: 0 <= i < last ==> p[..last][i] == p[i];
    }
  }

  /** Items put together again are the bytes they were taken from. */
  lemma {:induction false} FlattenItems(p: seq<seq<byte>>, bytes: seq<byte>, size: nat)
    requires Span(|p|, size) <= |bytes| && forall k :: 0 <= k < |p| ==> p[k] == ItemOf(bytes, size, k)
    ensures Flatten(p) == bytes[..Span(|p|, size)]
  {
    if p != [] {
      hide Span, ItemOf;
      var last := |p| - 1;
      Product(last, 1, size);
      SpanOfOne(size);
      FlattenItems(p[..last], bytes, size);
      ItemBehind(bytes, size, last);
    }
  }

  lemma ItemBehind(bytes: seq<byte>, size: nat, k: nat)
    requires Span(k, size) + size <= |bytes|
    ensures bytes[..Span(k, size) + size] == bytes[..Span(k, size)] + ItemOf(bytes, size, k)
  {
    SplitsAt(bytes, Span(k, size), Span(k, size) + size);
  }

  /** Array to list to array gives the items back if every node happens to find the item size in its
      `data_size`. */
  method CopyBack(arr: HmArray, list: List, back: HmArray, left: nat -> nat) returns (inside: bool)
    requires arr.Valid() && list.Valid() && !list.isRef && back.Valid() && back != arr
    requires back.itemSize == arr.itemSize && (arr.buf != null ==> back.buf != arr.buf)
    requires forall k :: 0 <= k < arr.nItems ==> left(k) == arr.itemSize
    modifies list, list.nodes, back, back.buf
    ensures back.Valid() && inside && back.nItems == arr.nItems && back.Contents() == old(arr.Contents())
  {
    hide Linked, Distinct, Entry, Freeable, Flatten;
    ghost var bytes, size := arr.Contents(), arr.itemSize;
    var freed := arr.CopyToList(list, true, left);
    assert list.nodes[0..] == list.nodes;
    SaysItsSize(list.nodes, bytes, size, left);
    CopiesBackIff(list.nodes, size);
    FlattenItems(Payloads(list.nodes), bytes, size);
    inside := back.CopyList(list, true);
  }

  lemma SaysItsSize(nodes: seq<Node>, bytes: seq<byte>, size: nat, said: nat -> nat)
    requires IsItems(false, nodes, bytes, size, said) && |bytes| == |nodes| * size
    requires forall k :: 0 <= k < |nodes| ==> said(k) == size
    ensures Carries(nodes) && forall i :: 0 <= i < |nodes| ==> |nodes[i].data| == size && nodes[i].dataSize == size
    ensures forall k :: 0 <= k < |nodes| ==> Payloads(nodes)[k] == ItemOf(bytes, size, k)
  {
    forall i | 0 <= i < |nodes|
      ensures |nodes[i].data| == size && nodes[i].dataSize == size && nodes[i].data == ItemOf(bytes, size, i)
    {
      hide ItemOf;
      assert IsItem(false, nodes[i], bytes, size, i, said(i));
      ItemIsFull(bytes, size, |nodes|, i);
    }
  }

  lemma ItemIsFull(bytes: seq<byte>, size: nat, n: nat, i: nat)
    requires |bytes| == n * size && i < n
    ensures |ItemOf(bytes, size, i)| == size
  {
    Product(i, 1, size);
    Scale(i + 1, n, size);
  }

  /** One item of one byte, and a node whose memory held 0: the node's payload is empty, one byte is taken. */
  method LeftoverZeroFails() returns (arr: HmArray, list: List)
    ensures arr.Valid() && arr.itemSize == 1 && arr.Contents() == [7]
    ensures list.Valid() && |list.nodes| == 1 && list.nodes[0].data == [7]
    ensures Carries(list.nodes) && |list.nodes| * arr.itemSize > |Flatten(Payloads(list.nodes))|
  {
    hide Linked, Distinct, Entry, Freeable, Flatten;
    arr := new HmArray(1);
    var raw := new byte[1](_ => 7);
    arr.CopyRaw(raw, 0, 1);
    assert raw[0..1] == [7];
    list := new List(false);
    var freed := arr.CopyToList(list, true, _ => 0);
    assert list.nodes[0..] == list.nodes;
    assert IsItem(false, list.nodes[0], [7], 1, 0, 0);
    CopiesBackIff(list.nodes, 1);
  }
}
