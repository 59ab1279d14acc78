/** The intrusive doubly linked lists of src/core/common.c, on the heap.  A reference list holds nodes of its
    own that point to nodes of other lists. */
module Lists {
  import opened Bytes

  /** How a call ends: 0, -1, or with an access through NULL. */
  datatype Ending = Done | Refused | NullAccess

  /** How a walk to position `i` of `n` ends: refused if `i`, cut to 32 bits, is past the end, and through NULL if
      only `i` itself is. */
  function EndingAt(i: nat, n: nat): Ending {
    if n < i % UINT_RANGE then Refused else if n < i then NullAccess else Done
  }

  class Node {
    var next: Node?
    var prev: Node?
    const dataSize: nat        // the number of bytes it says it carries
    const data: seq<byte>      // the bytes it carries
    const referent: Node?      // of a reference list's node: the node it stands for
    const freeable: bool       // whether free_fn is set

    constructor (data: seq<byte>, dataSize: nat, freeable: bool)
      ensures next == null && prev == null && this.dataSize == dataSize
      ensures this.data == data && this.freeable == freeable && referent == null
    {
      next, prev, referent := null, null, null;
      this.data, this.dataSize, this.freeable := data, dataSize, freeable;
    }

    constructor Ref(node: Node)
      ensures next == null && prev == null && referent == node && freeable && dataSize == 0 && data == []
    {
      next, prev, referent := null, null, node;
      data, dataSize, freeable := [], 0, true;
    }
  }

  /** The node at a place, or NULL outside. */
  ghost function Entry(nodes: seq<Node>, i: int): Node? {
    if 0 <= i < |nodes| then nodes[i] else null
  }

  ghost function Present(x: Node?): set<Node> {
    if x == null then {} else {x}
  }

  ghost predicate Distinct(nodes: seq<Node>) {
    forall i, j :: 0 <= i < j < |nodes| ==> nodes[i] != nodes[j]
  }

  ghost predicate Linked(nodes: seq<Node>)
    reads nodes
  {
    && (forall i {:trigger nodes[i].next} :: 0 <= i < |nodes| ==> nodes[i].next == Entry(nodes, i + 1))
    && (forall i {:trigger nodes[i].prev} :: 0 <= i < |nodes| ==> nodes[i].prev == Entry(nodes, i - 1))
  }

  ghost predicate AllRefer(nodes: seq<Node>) {
    forall i :: 0 <= i < |nodes| ==> nodes[i].referent != null
  }

  ghost function Inserted<T>(s: seq<T>, index: nat, x: T): seq<T>
    requires index <= |s|
  {
    s[..index] + [x] + s[index..]
  }

  lemma InsertedEntries(nodes: seq<Node>, index: nat, node: Node)
    requires index <= |nodes| && Distinct(nodes) && node !in nodes
    ensures var s := Inserted(nodes, index, node);
            |s| == |nodes| + 1 && Distinct(s)
            && forall i {:trigger Entry(s, i)} ::
                 Entry(s, i) == if i < index then Entry(nodes, i) else if i == index then node else Entry(nodes, i - 1)
  {
  }

  ghost function Without<T>(s: seq<T>, index: nat): seq<T>
    requires index < |s|
  {
    s[..index] + s[index + 1..]
  }

  lemma WithoutEntries(nodes: seq<Node>, index: nat)
    requires index < |nodes| && Distinct(nodes)
    ensures var s := Without(nodes, index);
            |s| == |nodes| - 1 && Distinct(s) && nodes[index] !in s
            && forall i {:trigger Entry(s, i)} ::
                 Entry(s, i) == if i < index then Entry(nodes, i) else Entry(nodes, i + 1)
  {
  }

  lemma EntryIsAt(nodes: seq<Node>, k: int)
    requires Distinct(nodes)
    ensures Entry(nodes, k) != null ==> Entry(nodes, k) in nodes
    ensures forall i {:trigger nodes[i]} :: 0 <= i < |nodes| ==>
              (nodes[i] == Entry(nodes, k) <==> i == k)
    ensures k < 0 || k >= |nodes| ==> Entry(nodes, k) == null
    ensures 0 <= k < |nodes| ==> Entry(nodes, k) == nodes[k]
  {
  }

  lemma InsertedRefer(nodes: seq<Node>, index: nat, node: Node)
    requires index <= |nodes|
    ensures AllRefer(nodes) && node.referent != null ==> AllRefer(Inserted(nodes, index, node))
  {
  }

  lemma EntriesAreNodes(nodes: seq<Node>, i: int)
    ensures Entry(nodes, i) != null ==> Entry(nodes, i) in nodes
  {
  }

  /** Once the pointers around a new node are set, the longer chain is linked ... */
  lemma InsertedIsLinked(was: seq<Node>, index: nat, node: Node)
    requires index <= |was| && Distinct(was) && node !in was
    requires node.next == Entry(was, index) && node.prev == Entry(was, index - 1)
    requires forall i {:trigger was[i].next} :: 0 <= i < |was| ==>
               was[i].next == if i == index - 1 then node else Entry(was, i + 1)
    requires forall i {:trigger was[i].prev} :: 0 <= i < |was| ==>
               was[i].prev == if i == index then node else Entry(was, i - 1)
    ensures Linked(Inserted(was, index, node))
  {
    hide Inserted, Distinct, Entry;
    var s := Inserted(was, index, node);
    InsertedEntries(was, index, node);
    forall i {:trigger s[i].next} | 0 <= i < |s|
      ensures s[i].next == Entry(s, i + 1)
    {
      InsertedFrom(was, index, node, i);
    }
    forall i {:trigger s[i].prev} | 0 <= i < |s|
      ensures s[i].prev == Entry(s, i - 1)
    {
      InsertedFrom(was, index, node, i);
    }
  }

  lemma InsertedFrom<T>(was: seq<T>, index: nat, x: T, i: nat)
    requires index <= |was| && i < |Inserted(was, index, x)|
    ensures |Inserted(was, index, x)| == |was| + 1
    ensures Inserted(was, index, x)[i] == if i < index then was[i] else if i == index then x else was[i - 1]
  {
  }

  /** ... and once the pointers past a node are set, the shorter one is. */
  lemma WithoutIsLinked(was: seq<Node>, index: nat)
    requires index < |was| && Distinct(was)
    requires forall i {:trigger was[i].next} :: 0 <= i < |was| && i != index ==>
               was[i].next == if i == index - 1 then Entry(was, index + 1) else Entry(was, i + 1)
    requires forall i {:trigger was[i].prev} :: 0 <= i < |was| && i != index ==>
               was[i].prev == if i == index + 1 then Entry(was, index - 1) else Entry(was, i - 1)
    ensures Linked(Without(was, index))
  {
    hide Without, Distinct, Entry;
    var s := Without(was, index);
    WithoutEntries(was, index);
    forall i {:trigger s[i].next} | 0 <= i < |s|
      ensures s[i].next == Entry(s, i + 1)
    {
      WithoutFrom(was, index, i);
    }
    forall i {:trigger s[i].prev} | 0 <= i < |s|
      ensures s[i].prev == Entry(s, i - 1)
    {
      WithoutFrom(was, index, i);
    }
  }

  lemma WithoutFrom<T>(was: seq<T>, index: nat, i: nat)
    requires index < |was| && i < |Without(was, index)|
    ensures |Without(was, index)| == |was| - 1
    ensures Without(was, index)[i] == was[if i < index then i else i + 1]
  {
  }

  class List {
    const isRef: bool
    var head: Node?
    var nItems: nat
    ghost var nodes: seq<Node>

    /** The chain from `head` is exactly `nodes`: no node twice, `prev` the inverse of `next`. */
    ghost predicate Valid()
      reads this, nodes
    {
      && nItems == |nodes|
      && head == Entry(nodes, 0)
      && Distinct(nodes)
      && Linked(nodes)
      && (isRef ==> AllRefer(nodes))
    }

    /** The nodes a reference list stands for. */
    ghost function Referents(): seq<Node>
      requires Valid() && isRef
      reads this, nodes
    {
      ReferentsOf(nodes)
    }

    constructor (isRef: bool)
      ensures Valid() && nodes == [] && this.isRef == isRef
    {
      this.isRef := isRef;
      head, nItems, nodes := null, 0, [];
    }

    /** The walk to a position: the node in front of it and the node at it. */
    method Walk(index: nat) returns (before: Node?, at: Node?)
      requires Valid() && index <= |nodes|
      ensures before == Entry(nodes, index - 1) && at == Entry(nodes, index)
    {
      before, at := null, head;
      var itr := 0;
      while itr < index
        invariant 0 <= itr <= index
        invariant before == Entry(nodes, itr - 1) && at == Entry(nodes, itr)
      {
        before, at := at, at.next;
        itr := itr + 1;
      }
    }

    /** Setting the four pointers around a node that goes in between two others. */
    method Splice(node: Node, before: Node?, at: Node?)
      requires node != before && node != at
      modifies this`head, node`next, node`prev, Present(before)`next, Present(at)`prev
      ensures node.next == at && node.prev == before
      ensures at != null ==> at.prev == node
      ensures if before == null then head == node else before.next == node && head == old(head)
    {
      node.next := at;
      node.prev := before;
      if at != null {
        at.prev := node;
      }
      if before == null {
        head := node;
      } else {
        before.next := node;
      }
    }

    /** Linking a node in at a position. */
    method Link(node: Node, index: nat)
      requires Valid() && node !in nodes && index <= |nodes| && (isRef ==> node.referent != null)
      modifies this, nodes, node`next, node`prev
      ensures Valid() && nodes == Inserted(old(nodes), index, node)
    {
      hide Inserted, Distinct, Entry, AllRefer;
      ghost var was := nodes;
      ghost var s := Inserted(was, index, node);
      InsertedEntries(was, index, node);
      InsertedRefer(was, index, node);
      EntryIsAt(was, index);
      EntryIsAt(was, index - 1);
      var before, at := Walk(index);
      Splice(node, before, at);
      InsertedIsLinked(was, index, node);
      nItems := nItems + 1;
      nodes := s;
    }

    /** The position an index stands for: a negative one is the end. */
    function Position(index: int): nat
      reads this
    {
      if index < 0 then nItems else index
    }

    /** `hm_list_insert`: a plain list takes the node itself, a reference list a new node that points to it. */
    method Insert(node: Node, index: int) returns (rc: Ending)
      requires Valid() && (!isRef ==> node !in nodes)
      modifies this, nodes, (if isRef then {} else {node})`next, (if isRef then {} else {node})`prev
      ensures Valid() && rc == EndingAt(old(Position(index)), |old(nodes)|)
      ensures rc != Done ==> nodes == old(nodes)
      ensures rc == Done ==> |nodes| == |old(nodes)| + 1 && var i := old(Position(index));
                             nodes == Inserted(old(nodes), i, nodes[i])
                             && if isRef then fresh(nodes[i]) && nodes[i].referent == node else nodes[i] == node
    {
      var i := Position(index);
      if nItems < i % UINT_RANGE {
        return Refused;
      }
      if nItems < i {
        return NullAccess;
      }
      var entry := node;
      if isRef {
        entry := new Node.Ref(node);
      }
      Link(entry, i);
      rc := Done;
    }

    /** `hm_list_append`. */
    method Append(node: Node)
      requires Valid() && (!isRef ==> node !in nodes)
      modifies this, nodes, (if isRef then {} else {node})`next, (if isRef then {} else {node})`prev
      ensures Valid() && |nodes| == |old(nodes)| + 1 && nodes[..|nodes| - 1] == old(nodes)
      ensures var last := nodes[|nodes| - 1];
              if isRef then fresh(last) && last.referent == node else last == node
    {
      var rc := Insert(node, -1);
    }

    /** `hm_list_at`: past the last node a plain list gives NULL and a reference list follows it. */
    method At(index: int) returns (rc: Ending, node: Node?)
      requires Valid()
      ensures var i, n := Position(index), |nodes|;
              if i < n then rc == Done && node == if isRef then nodes[i].referent else nodes[i]
              else node == null && rc == match EndingAt(i, n)
                                         case Done => if isRef then NullAccess else Done
                                         case Refused => Done
                                         case NullAccess => NullAccess
    {
      var i := Position(index);
      if nItems < i % UINT_RANGE {
        return Done, null;
      }
      if nItems < i {
        return NullAccess, null;
      }
      var before, at := Walk(i);
      if !isRef {
        return Done, at;
      }
      if at == null {
        return NullAccess, null;
      }
      return Done, at.referent;
    }

    /** Taking the node at a position out of the chain. */
    method Unlink(index: nat) returns (node: Node)
      requires Valid() && index < |nodes|
      modifies this, nodes
      ensures Valid() && nodes == Without(old(nodes), index) && node == old(nodes)[index]
    {
      ghost var was := nodes;
      ghost var s := Without(was, index);
      WithoutEntries(was, index);
      var before, at := Walk(index);
      node := at;
      if before == null {
        head := node.next;
      } else {
        before.next := node.next;
      }
      if node.next != null {
        node.next.prev := node.prev;
      }
      WithoutIsLinked(was, index);
      nItems := nItems - 1;
      nodes := s;
    }

    /** `hm_list_remove`: a negative index means the last node; on an empty list it wraps around and is
        refused, and the index just past the last node is followed through NULL. */
    method Remove(index: int) returns (rc: Ending, freed: seq<Node>)
      requires Valid()
      modifies this, nodes
      ensures Valid()
      ensures var i := if index < 0 then |old(nodes)| - 1 else index;
              if 0 <= i < |old(nodes)| then
                rc == Done && freed == [old(nodes)[i]] && nodes == Without(old(nodes), i)
              else
                freed == [] && nodes == old(nodes)
                && rc == if 0 <= i && i % UINT_RANGE <= |old(nodes)| then NullAccess else Refused
    {
      var i: nat := if index >= 0 then index else if nItems == 0 then UINT_RANGE - 1 else nItems - 1;
      if nItems < i % UINT_RANGE {
        return Refused, [];
      }
      if nItems <= i {
        return NullAccess, [];
      }
      var node := Unlink(i);
      return Done, [node];
    }

    /** `hm_list_clear`: every node that has a `free_fn` is freed by it, in order. */
    method Clear() returns (freed: seq<Node>)
      requires Valid()
      modifies this
      ensures Valid() && nodes == [] && freed == Freeable(old(nodes))
      ensures exists at :: IsSelection(old(nodes), freed, at) &&
                forall i :: 0 <= i < |old(nodes)| ==> (i in at <==> old(nodes)[i].freeable)
    {
      freed := [];
      var itr := head;
      ghost var i := 0;
      while itr != null
        invariant 0 <= i <= |nodes| && itr == Entry(nodes, i)
        invariant freed == Freeable(nodes[..i])
        decreases |nodes| - i
      {
        assert nodes[..i + 1][..i] == nodes[..i];
        if itr.freeable {
          freed := freed + [itr];
        }
        itr := itr.next;
        i := i + 1;
      }
      assert nodes[..i] == nodes;
      ghost var at := MatchingInOrder(nodes, (n: Node) => n.freeable);
      nItems := 0;
      head := null;
      nodes := [];
    }

    /** `hm_list_remove_where`, with the nodes on which the comparison function returns 0 given by `cmp`.
        While the loop runs, the chain is what has been kept so far followed by what has not been looked
        at; the step back from a removed node goes through the node after it, and there is none after the
        last. */
    method RemoveWhere(cmp: Node -> bool) returns (rc: Ending, freed: seq<Node>)
      requires Valid()
      modifies this, nodes
      ensures rc == if old(nodes) != [] && cmp(old(nodes)[|old(nodes)| - 1]) then NullAccess else Done
      ensures rc == Done ==> Valid() && nodes == Kept(old(nodes), cmp) && freed == Matching(old(nodes), cmp)
    {
      hide Kept, Matching, Linked, Distinct, Entry, Without, AllRefer, Halfway, Rest, Within;
      freed := [];
      ghost var was, i, kept := nodes, 0, [];
      var itr := head;
      NothingKept(was, cmp);
      while itr != null
        invariant itr == Entry(was, i) && Valid() && Halfway(nodes, was, i, cmp, kept, freed) && Within(nodes, was)
        invariant i == |was| > 0 ==> !cmp(was[i - 1])
        decreases |was| - i
      {
        HalfwayAt(nodes, was, i, cmp, kept, freed);
        ghost var before, keptSoFar, freedSoFar := nodes, kept, freed;
        var crash, matches := false, cmp(itr);
        freed := freed + if matches then [itr] else [];
        crash, itr, kept := LookAt(itr, matches, was, i, kept);
        if crash {
          return NullAccess, freed;
        }
        HalfwayStep(before, nodes, was, i, cmp, keptSoFar, freedSoFar);
        i := i + 1;
      }
      AllKept(nodes, was, i, cmp, kept, freed);
      rc := Done;
    }

    /** One round of the loop: stepping on, and taking the node out if it matches and is not the last. */
    method LookAt(node: Node, matches: bool, ghost was: seq<Node>, ghost i: nat, ghost kept: seq<Node>)
      returns (crash: bool, itr: Node?, ghost keptNow: seq<Node>)
      requires Valid() && i < |was| && Rest(nodes, kept, was, i) && node == was[i] && Within(nodes, was)
      modifies this, was
      ensures itr == Entry(was, i + 1) && (crash <==> matches && i + 1 == |was|)
      ensures keptNow == if matches then kept else kept + [node]
      ensures !crash ==> Valid() && Rest(nodes, keptNow, was, i + 1) && Within(nodes, was)
    {
      hide Linked, Distinct, Entry;
      keptNow := if matches then kept else kept + [node];
      assert nodes[|kept|..] == was[i..];
      InsideEntry(was, i);
      RestEntries(nodes, was, i, |kept|);
      NextEntry(node, |kept|);
      itr := node.next;
      crash := matches && itr == null;
      assert kept + was[i..] == kept + [node] + was[i + 1..];
      if matches && itr != null {
        RemoveFound(node, |kept|, itr);
        assert Without(kept + was[i..], |kept|) == kept + was[i + 1..];
      }
    }

    lemma NextEntry(node: Node, k: nat)
      requires Valid() && Entry(nodes, k) == node
      ensures node.next == Entry(nodes, k + 1)
      ensures node.next != null ==> k + 1 < |nodes| && nodes[k] == node && nodes[k + 1] == node.next
      ensures node.next == null ==> k + 1 == |nodes|
    {
    }

    /** The unlinking inside the loop, through the node's own pointers. */
    method RemoveFound(node: Node, ghost k: nat, itr: Node)
      requires Valid() && k + 1 < |nodes| && nodes[k] == node && nodes[k + 1] == itr
      modifies this, nodes
      ensures Valid() && nodes == Without(old(nodes), k) && forall j :: 0 <= j < |nodes| ==> nodes[j] in old(nodes)
    {
      ghost var was := nodes;
      ghost var s := Without(was, k);
      WithoutEntries(was, k);
      EntriesAreNodes(was, k - 1);
      if node.prev != null {
        node.prev.next := itr;
      } else {
        head := itr;
      }
      itr.prev := node.prev;
      WithoutIsLinked(was, k);
      nItems := nItems - 1;
      nodes := s;
    }
  }

  function Freeable(nodes: seq<Node>): seq<Node> {
    Matching(nodes, (n: Node) => n.freeable)
  }

  /** The nodes a condition picks, and those it leaves, in their order. */
  function Matching(nodes: seq<Node>, cmp: Node -> bool): seq<Node> {
    if nodes == [] then []
    else
      var last := nodes[|nodes| - 1];
      Matching(nodes[..|nodes| - 1], cmp) + if cmp(last) then [last] else []
  }

  function Kept(nodes: seq<Node>, cmp: Node -> bool): seq<Node> {
    Matching(nodes, (n: Node) => !cmp(n))
  }

  ghost predicate Rest(nodes: seq<Node>, kept: seq<Node>, was: seq<Node>, i: nat) {
    i <= |was| && nodes == kept + was[i..]
  }

  ghost predicate Within(nodes: seq<Node>, was: seq<Node>) {
    forall j :: 0 <= j < |nodes| ==> nodes[j] in was
  }

  /** The first `i` nodes have been looked at. */
  ghost predicate Halfway(
    nodes: seq<Node>, was: seq<Node>, i: nat, cmp: Node -> bool, kept: seq<Node>, freed: seq<Node>)
  {
    Rest(nodes, kept, was, i) && kept == Kept(was[..i], cmp) && freed == Matching(was[..i], cmp)
  }

  lemma NothingKept(was: seq<Node>, cmp: Node -> bool)
    ensures Halfway(was, was, 0, cmp, [], []) && Within(was, was)
  {
    assert was[..0] == [];
  }

  lemma HalfwayAt(nodes: seq<Node>, was: seq<Node>, i: nat, cmp: Node -> bool, kept: seq<Node>, freed: seq<Node>)
    requires Halfway(nodes, was, i, cmp, kept, freed) && Entry(was, i) != null
    ensures i < |was| && Entry(was, i) == was[i] && Rest(nodes, kept, was, i)
  {
  }

  lemma HalfwayStep(
    before: seq<Node>, after: seq<Node>, was: seq<Node>, i: nat, cmp: Node -> bool, kept: seq<Node>, freed: seq<Node>)
    requires i < |was| && Halfway(before, was, i, cmp, kept, freed)
    requires Rest(after, if cmp(was[i]) then kept else kept + [was[i]], was, i + 1)
    ensures var keptNow, freedNow := if cmp(was[i]) then kept else kept + [was[i]],
                                     freed + if cmp(was[i]) then [was[i]] else [];
            Halfway(after, was, i + 1, cmp, keptNow, freedNow)
  {
    assert was[..i + 1][..i] == was[..i];
  }

  lemma AllKept(nodes: seq<Node>, was: seq<Node>, i: nat, cmp: Node -> bool, kept: seq<Node>, freed: seq<Node>)
    requires Halfway(nodes, was, i, cmp, kept, freed) && Entry(was, i) == null
    ensures i == |was| && nodes == Kept(was, cmp) && freed == Matching(was, cmp)
  {
    assert was[..i] == was;
  }

  lemma InsideEntry(was: seq<Node>, i: nat)
    requires i < |was|
    ensures Entry(was, i) == was[i]
  {
  }

  lemma RestEntries(nodes: seq<Node>, was: seq<Node>, i: nat, k: nat)
    requires i <= |was| && k <= |nodes| && nodes[k..] == was[i..] && Entry(was, i) != null
    ensures i < |was| && Entry(nodes, k) == was[i] == Entry(was, i) && Entry(nodes, k + 1) == Entry(was, i + 1)
    ensures k + 1 == |nodes| <==> i + 1 == |was|
  {
    assert forall j {:trigger nodes[k + j]} :: 0 <= j < |was| - i ==> nodes[k + j] == nodes[k..][j] == was[i..][j];
    assert Entry(nodes, k) == nodes[k + 0];
    assert i + 1 < |was| ==> Entry(nodes, k + 1) == nodes[k + 1] == nodes[k..][1] == was[i..][1];
  }

  /** The nodes a condition picks are those at which it holds, all of them and in the order of the list. */
  lemma {:induction false} MatchingInOrder(nodes: seq<Node>, cmp: Node -> bool) returns (at: seq<nat>)
    ensures IsSelection(nodes, Matching(nodes, cmp), at)
    ensures forall i :: 0 <= i < |nodes| ==> (i in at <==> cmp(nodes[i]))
  {
    if nodes == [] {
      at := [];
    } else {
      var last := |nodes| - 1;
      at := MatchingInOrder(nodes[..last], cmp);
      SelectionGrows(nodes, last, Matching(nodes[..last], cmp), at);
      if cmp(nodes[last]) {
        at := at + [last];
      }
    }
  }

  /** Removing the matching nodes loses nothing else: what is kept and what is freed make up the list, in
      number and in content. */
  lemma {:induction false} KeptAndMatching(nodes: seq<Node>, cmp: Node -> bool)
    ensures |Kept(nodes, cmp)| + |Matching(nodes, cmp)| == |nodes|
    ensures multiset(Kept(nodes, cmp)) + multiset(Matching(nodes, cmp)) == multiset(nodes)
    ensures forall n :: n in Kept(nodes, cmp) ==> !cmp(n)
    ensures forall n :: n in Matching(nodes, cmp) ==> cmp(n)
  {
    if nodes != [] {
      KeptAndMatching(nodes[..|nodes| - 1], cmp);
      assert nodes == nodes[..|nodes| - 1] + [nodes[|nodes| - 1]];
    }
  }

  // ---- whole runs ----

  datatype SeqOp<T> = InsertAt(x: T, index: int) | RemoveAt(index: int) | ClearAll

  /** One call as sequence insertion or deletion; a negative index means the end or the last element. */
  ghost function SeqStep<T>(s: seq<T>, op: SeqOp<T>): seq<T> {
    match op
    case InsertAt(x, index) =>
      var i := if index < 0 then |s| else index;
      if i <= |s| then Inserted(s, i, x) else s
    case RemoveAt(index) =>
      var i := if index < 0 then |s| - 1 else index;
      if 0 <= i < |s| then Without(s, i) else s
    case ClearAll => []
  }

  ghost function SeqRun<T>(s: seq<T>, ops: seq<SeqOp<T>>): seq<T> {
    if ops == [] then s else SeqStep(SeqRun(s, ops[..|ops| - 1]), ops[|ops| - 1])
  }

  /** The calls that follow NULL: a removal just past the last node, and an index that only its low 32 bits
      bring back into the list. */
  predicate FollowsNull<T>(op: SeqOp<T>, n: nat) {
    match op
    case InsertAt(_, index) => index > n && index % UINT_RANGE <= n
    case RemoveAt(index) => index >= n && index % UINT_RANGE <= n
    case ClearAll => false
  }

  /** What the nodes of a list carry. */
  ghost function DataOf(nodes: seq<Node>): (d: seq<seq<byte>>)
    ensures |d| == |nodes|
  {
    seq(|nodes|, i requires 0 <= i < |nodes| => nodes[i].data)
  }

  lemma DataInserted(nodes: seq<Node>, index: nat, node: Node)
    requires index <= |nodes|
    ensures DataOf(Inserted(nodes, index, node)) == Inserted(DataOf(nodes), index, node.data)
  {
  }

  lemma DataWithout(nodes: seq<Node>, index: nat)
    requires index < |nodes|
    ensures DataOf(Without(nodes, index)) == Without(DataOf(nodes), index)
  {
  }

  /** One call on a list that owns its nodes; an insertion brings a new node. */
  method DoOwned(list: List, op: SeqOp<seq<byte>>) returns (rc: Ending)
    requires list.Valid() && !list.isRef
    modifies list, list.nodes
    ensures list.Valid() && DataOf(list.nodes) == SeqStep(DataOf(old(list.nodes)), op)
    ensures rc == NullAccess <==> FollowsNull(op, |old(list.nodes)|)
    ensures forall i :: 0 <= i < |list.nodes| ==> list.nodes[i] in old(list.nodes) || fresh(list.nodes[i])
  {
    hide Distinct, Linked, Entry, Inserted, Without, DataOf, Freeable;
    ghost var was := list.nodes;
    match op
    case InsertAt(data, index) =>
      var node := new Node(data, |data|, true);
      rc := list.Insert(node, index);
      ghost var i := if index < 0 then |was| else index;
      if i <= |was| {
        DataInserted(was, i, node);
        InsertedKeeps(was, i, node);
      }
    case RemoveAt(index) =>
      var freed;
      rc, freed := list.Remove(index);
      ghost var i := if index < 0 then |was| - 1 else index;
      if 0 <= i < |was| {
        DataWithout(was, i);
        WithoutKeeps(was, i);
      }
    case ClearAll =>
      var freed := list.Clear();
      rc := Done;
  }

  /** The shape invariant over whole runs: any run of insertions, removals and clears keeps the chain
      acyclic, as long as `n_items`, and `prev` the inverse of `next`, and leaves the data that sequence
      insertions and deletions give.  It stops early only at a call that follows NULL. */
  method RunOnList(list: List, ops: seq<SeqOp<seq<byte>>>) returns (done: nat)
    requires list.Valid() && !list.isRef
    modifies list, list.nodes
    ensures list.Valid() && done <= |ops| && DataOf(list.nodes) == SeqRun(DataOf(old(list.nodes)), ops[..done])
    ensures done < |ops| ==> FollowsNull(ops[done], |list.nodes|)
  {
    hide Distinct, Linked, Entry, DataOf, Inserted, Without;
    done := 0;
    while done < |ops|
      invariant done <= |ops| && list.Valid()
      invariant DataOf(list.nodes) == SeqRun(DataOf(old(list.nodes)), ops[..done])
      invariant forall j :: 0 <= j < |list.nodes| ==> list.nodes[j] in old(list.nodes) || fresh(list.nodes[j])
    {
      assert ops[..done + 1][..done] == ops[..done];
      if FollowsNull(ops[done], list.nItems) {
        return;
      }
      var rc := DoOwned(list, ops[done]);
      done := done + 1;
    }
  }

  method OneNode() returns (list: List)
    ensures fresh(list) && list.Valid() && !list.isRef && fresh(list.nodes) && DataOf(list.nodes) == [[7]]
  {
    list := new List(false);
    var node := new Node([7], 1, true);
    list.Append(node);
    assert list.nodes == [node];
  }

  /** Failing calls on a list of one node: removing at 1, removing where every node matches, and inserting at
      2^32 + 1, which the comparison takes for 1. */
  method RemoveAtOneFails() returns (list: List, rc: Ending)
    ensures list.Valid() && DataOf(list.nodes) == [[7]] && rc == NullAccess
  {
    hide Linked, Distinct, Entry;
    list := OneNode();
    var freed;
    rc, freed := list.Remove(1);
  }

  method RemoveWhereAllFails() returns (data: seq<seq<byte>>, rc: Ending)
    ensures data == [[7]] && rc == NullAccess
  {
    hide Linked, Distinct, Entry;
    var list := OneNode();
    var rc0, first := list.At(0);
    data := [first.data];
    var freed;
    rc, freed := list.RemoveWhere(n => true);
  }

  method InsertFarFails() returns (list: List, rc: Ending)
    ensures list.Valid() && DataOf(list.nodes) == [[7]] && rc == NullAccess
  {
    hide Linked, Distinct, Entry;
    list := OneNode();
    var node := new Node([8], 1, true);
    rc := list.Insert(node, UINT_RANGE + 1);
  }

  // ---- reference lists ----

  ghost function ReferentsOf(nodes: seq<Node>): (r: seq<Node>)
    requires AllRefer(nodes)
    ensures |r| == |nodes|
  {
    seq(|nodes|, i requires 0 <= i < |nodes| => nodes[i].referent)
  }

  lemma ReferentsInserted(nodes: seq<Node>, index: nat, node: Node)
    requires index <= |nodes| && node.referent != null
    requires AllRefer(nodes)
    ensures AllRefer(Inserted(nodes, index, node))
    ensures var r: Node := node.referent;
            ReferentsOf(Inserted(nodes, index, node)) == Inserted(ReferentsOf(nodes), index, r)
  {
  }

  lemma ReferentsWithout(nodes: seq<Node>, index: nat)
    requires index < |nodes| && AllRefer(nodes)
    ensures AllRefer(Without(nodes, index))
    ensures ReferentsOf(Without(nodes, index)) == Without(ReferentsOf(nodes), index)
  {
  }

  /** One call on a reference list, seen on its referents. */
  method DoRef(refs: List, op: SeqOp<Node>) returns (rc: Ending, freed: seq<Node>)
    requires refs.Valid() && refs.isRef
    modifies refs, refs.nodes
    ensures refs.Valid() && refs.Referents() == SeqStep(old(refs.Referents()), op)
    ensures rc == NullAccess <==> FollowsNull(op, |old(refs.nodes)|)
    ensures rc == NullAccess ==> refs.nodes == old(refs.nodes)
    ensures forall i :: 0 <= i < |refs.nodes| ==> refs.nodes[i] in old(refs.nodes) || fresh(refs.nodes[i])
    ensures forall x :: x in freed ==> x in old(refs.nodes)
  {
    hide Distinct, Linked, Entry, Inserted, Without, ReferentsOf, Freeable;
    freed := [];
    ghost var was := refs.nodes;
    match op
    case InsertAt(node, index) =>
      rc := InsertRefNode(refs, node, index);
    case RemoveAt(index) =>
      rc, freed := refs.Remove(index);
      ghost var i := if index < 0 then |was| - 1 else index;
      if 0 <= i < |was| {
        ReferentsWithout(was, i);
        WithoutKeeps(was, i);
      }
    case ClearAll =>
      freed := refs.Clear();
      FreeableAreNodes(was);
      assert refs.Referents() == [] by { NoReferents(refs.nodes); }
      rc := Done;
  }

  lemma NoReferents(nodes: seq<Node>)
    requires nodes == []
    ensures ReferentsOf(nodes) == []
  {
  }

  lemma WithoutKeeps(nodes: seq<Node>, index: nat)
    requires index < |nodes|
    ensures forall i :: 0 <= i < |Without(nodes, index)| ==> Without(nodes, index)[i] in nodes
  {
  }

  lemma InsertedKeeps(nodes: seq<Node>, index: nat, node: Node)
    requires index <= |nodes|
    ensures |Inserted(nodes, index, node)| == |nodes| + 1
    ensures forall i :: 0 <= i <= |nodes| ==>
              Inserted(nodes, index, node)[i] in nodes || Inserted(nodes, index, node)[i] == node
  {
  }

  method InsertRefNode(refs: List, node: Node, index: int) returns (rc: Ending)
    requires refs.Valid() && refs.isRef
    modifies refs, refs.nodes
    ensures refs.Valid() && (rc == NullAccess <==> FollowsNull(InsertAt(node, index), |old(refs.nodes)|))
    ensures rc == NullAccess ==> refs.nodes == old(refs.nodes)
    ensures refs.Referents() == SeqStep(old(refs.Referents()), InsertAt(node, index))
    ensures forall i :: 0 <= i < |refs.nodes| ==> refs.nodes[i] in old(refs.nodes) || fresh(refs.nodes[i])
  {
    hide Distinct, Linked, Entry, Inserted, ReferentsOf;
    ghost var was := refs.nodes;
    ghost var i := if index < 0 then |was| else index;
    rc := refs.Insert(node, index);
    if rc == Done {
      ReferentsInserted(was, i, refs.nodes[i]);
      InsertedKeeps(was, i, refs.nodes[i]);
    }
  }

  lemma {:induction false} FreeableAreNodes(nodes: seq<Node>)
    ensures forall x :: x in Freeable(nodes) ==> x in nodes
  {
    KeptAndMatching(nodes, (n: Node) => n.freeable);
    forall x | x in Freeable(nodes)
      ensures x in nodes
    {
      assert multiset(Freeable(nodes))[x] > 0;
      assert multiset(nodes)[x] > 0;
    }
  }

  /** Sharing: any run of calls on a reference list ends with the referents that sequence insertions and
      removals give, leaves a list that owns the same nodes exactly as it was, links included, and frees
      none of that list's nodes.  The run stops early only at a call that follows NULL. */
  method RunOnReflist(refs: List, owner: List, ops: seq<SeqOp<Node>>) returns (done: nat, freed: seq<Node>)
    requires refs.Valid() && refs.isRef && owner.Valid() && refs != owner
    requires forall i :: 0 <= i < |refs.nodes| ==> refs.nodes[i] !in owner.nodes
    modifies refs, refs.nodes
    ensures refs.Valid() && done <= |ops| && refs.Referents() == SeqRun(old(refs.Referents()), ops[..done])
    ensures done < |ops| ==> FollowsNull(ops[done], |refs.nodes|)
    ensures owner.Valid() && owner.nodes == old(owner.nodes) && owner.head == old(owner.head)
    ensures forall x :: x in freed ==> x !in owner.nodes
  {
    hide Distinct, Linked, Entry, ReferentsOf;
    done, freed := 0, [];
    while done < |ops|
      invariant done <= |ops| && refs.Valid()
      invariant refs.Referents() == SeqRun(old(refs.Referents()), ops[..done])
      invariant owner.Valid() && owner.nodes == old(owner.nodes) && owner.head == old(owner.head)
      invariant forall j :: 0 <= j < |refs.nodes| ==> refs.nodes[j] !in owner.nodes
      invariant forall j :: 0 <= j < |refs.nodes| ==> refs.nodes[j] in old(refs.nodes) || fresh(refs.nodes[j])
      invariant forall x :: x in freed ==> x !in owner.nodes
    {
      assert ops[..done + 1][..done] == ops[..done];
      if FollowsNull(ops[done], refs.nItems) {
        return;
      }
      var rc, more := DoRef(refs, ops[done]);
      freed := freed + more;
      done := done + 1;
    }
  }
}
