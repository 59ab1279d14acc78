/** Grouping the io nodes of PulseAudio by card: `io_list_to_array` and its lookups (src/core/pulse.c).
    Sizes are counted under the card's id, nodes are placed under the card's index. */
module Devices {
  import opened Bytes

  datatype IoNode = IoNode(name: string, cardId: int)

  class Device {
    const cardId: int
    var nIoDevices: nat
    var ioDevices: array<IoNode>

    constructor (cardId: int)
      ensures this.cardId == cardId && nIoDevices == 0 && fresh(ioDevices) && ioDevices.Length == 0
    {
      this.cardId := cardId;
      nIoDevices := 0;
      ioDevices := new IoNode[0];
    }
  }

  /** The place of the first element with that value, or -1. */
  function FirstIndex(ids: seq<int>, id: int): (i: int)
    ensures -1 <= i < |ids| && (i == -1 <==> id !in ids)
    ensures i >= 0 ==> ids[i] == id && id !in ids[..i]
  {
    if ids == [] then -1
    else if ids[0] == id then 0
    else
      var i := FirstIndex(ids[1..], id);
      assert i >= 0 ==> ids[..1 + i] == [ids[0]] + ids[1..][..i];
      if i < 0 then -1 else 1 + i
  }

  /** The nodes for which the function gives `i`, in their order. */
  function Group(nodes: seq<IoNode>, place: IoNode -> int, i: int): (g: seq<IoNode>)
    ensures |g| <= |nodes|
  {
    if nodes == [] then []
    else
      var last := nodes[|nodes| - 1];
      Group(nodes[..|nodes| - 1], place, i) + if place(last) == i then [last] else []
  }

  /** A group holds the nodes placed there, all of them and in the order of the list. */
  lemma {:induction false} GroupInOrder(nodes: seq<IoNode>, place: IoNode -> int, i: int) returns (at: seq<nat>)
    ensures IsSelection(nodes, Group(nodes, place, i), at)
    ensures forall k :: 0 <= k < |nodes| ==> (k in at <==> place(nodes[k]) == i)
  {
    if nodes == [] {
      at := [];
    } else {
      var last := |nodes| - 1;
      at := GroupInOrder(nodes[..last], place, i);
      SelectionGrows(nodes, last, Group(nodes[..last], place, i), at);
      if place(nodes[last]) == i {
        at := at + [last];
      }
    }
  }

  function Ids(devices: seq<Device>): (ids: seq<int>)
    ensures |ids| == |devices|
  {
    seq(|devices|, i requires 0 <= i < |devices| => devices[i].cardId)
  }

  /** `get_index_from_card_id`. */
  method GetIndexFromCardId(cards: seq<Device>, cardId: int) returns (index: int)
    ensures index == FirstIndex(Ids(cards), cardId)
  {
    index := 0;
    while index < |cards|
      invariant 0 <= index <= |cards|
      invariant var rest := FirstIndex(Ids(cards)[index..], cardId);
                FirstIndex(Ids(cards), cardId) == if rest < 0 then -1 else index + rest
    {
      if cards[index].cardId == cardId {
        return;
      }
      assert Ids(cards)[index..][1..] == Ids(cards)[index + 1..];
      index := index + 1;
    }
    index := -1;
  }

  /** `get_dev_io_id`: the place of the first node of that name, or -1. */
  method GetDevIoId(nodes: seq<IoNode>, name: string) returns (i: int)
    ensures -1 <= i < |nodes|
    ensures i >= 0 ==> nodes[i].name == name
    ensures forall j :: 0 <= j < (if i < 0 then |nodes| else i) ==> nodes[j].name != name
  {
    i := 0;
    while i < |nodes|
      invariant 0 <= i <= |nodes| && forall j :: 0 <= j < i ==> nodes[j].name != name
    {
      if nodes[i].name == name {
        return;
      }
      i := i + 1;
    }
    i := -1;
  }

  function ById(): IoNode -> int {
    (n: IoNode) => n.cardId
  }

  function ByIndex(ids: seq<int>): IoNode -> int {
    (n: IoNode) => FirstIndex(ids, n.cardId)
  }

  /** Every count of the counting pass falls into its table. */
  predicate CountsInside(ids: seq<int>, nodes: seq<IoNode>) {
    forall n :: n in nodes ==> 0 <= n.cardId < |ids|
  }

  /** Every node's card is among those known. */
  predicate CardsKnown(ids: seq<int>, nodes: seq<IoNode>) {
    forall n :: n in nodes ==> n.cardId in ids
  }

  /** The counting pass stays inside its table, every node's card is known, and no card is given more nodes
      than were counted for it. */
  ghost predicate FillsExactly(ids: seq<int>, nodes: seq<IoNode>) {
    && CountsInside(ids, nodes)
    && CardsKnown(ids, nodes)
    && forall i :: 0 <= i < |ids| ==> |Group(nodes, ByIndex(ids), i)| <= |Group(nodes, ById(), i)|
  }

  /** Every card id in use is the index at which a search for it ends. */
  predicate IdsAreIndices(ids: seq<int>, nodes: seq<IoNode>) {
    forall n :: n in nodes ==> 0 <= n.cardId < |ids| && FirstIndex(ids, n.cardId) == n.cardId
  }

  lemma {:induction false} SamePlaceSameGroup(nodes: seq<IoNode>, f: IoNode -> int, g: IoNode -> int, i: int)
    requires forall n :: n in nodes ==> f(n) == g(n)
    ensures Group(nodes, f, i) == Group(nodes, g, i)
  {
    if nodes != [] {
      SamePlaceSameGroup(nodes[..|nodes| - 1], f, g, i);
    }
  }

  lemma {:induction false} GroupGrows(nodes: seq<IoNode>, f: IoNode -> int, i: int, k: nat)
    requires k <= |nodes|
    ensures Group(nodes[..k], f, i) <= Group(nodes, f, i)
  {
    if k == |nodes| {
      assert nodes[..k] == nodes;
    } else {
      GroupGrows(nodes[..|nodes| - 1], f, i, k);
      assert nodes[..|nodes| - 1][..k] == nodes[..k];
    }
  }

  /** When device `i` has card id `i`, every card gets exactly as many nodes as were counted for it. */
  lemma IndicesFillExactly(ids: seq<int>, nodes: seq<IoNode>)
    requires IdsAreIndices(ids, nodes)
    ensures FillsExactly(ids, nodes)
    ensures forall i :: Group(nodes, ByIndex(ids), i) == Group(nodes, ById(), i)
  {
    forall i {
      SamePlaceSameGroup(nodes, ByIndex(ids), ById(), i);
    }
  }

  /** Whatever nodes of known cards come up, none is written outside the counting table or an allocation, if
      and only if every card's id is the index at which a search for it ends. */
  lemma NeverOverrunsIff(ids: seq<int>)
    ensures (forall nodes: seq<IoNode> :: CardsKnown(ids, nodes) ==> FillsExactly(ids, nodes))
            <==> forall c :: c in ids ==> 0 <= c < |ids| && FirstIndex(ids, c) == c
  {
    if forall c :: c in ids ==> 0 <= c < |ids| && FirstIndex(ids, c) == c {
      forall nodes: seq<IoNode> | CardsKnown(ids, nodes)
        ensures FillsExactly(ids, nodes)
      {
        IndicesFillExactly(ids, nodes);
      }
    } else {
      var c :| c in ids && (0 <= c < |ids| ==> FirstIndex(ids, c) != c);
      OneNodeOverruns(ids, c);
      assert CardsKnown(ids, [IoNode("", c)]);
    }
  }

  lemma OneNodeOverruns(ids: seq<int>, c: int)
    requires c in ids && (0 <= c < |ids| ==> FirstIndex(ids, c) != c)
    ensures !FillsExactly(ids, [IoNode("", c)])
  {
    var nodes := [IoNode("", c)];
    assert nodes[..0] == [] && nodes[0] in nodes;
    var i := FirstIndex(ids, c);
    assert |Group(nodes, ByIndex(ids), i)| == 1;
    assert 0 <= c < |ids| ==> |Group(nodes, ById(), i)| == 0;
  }

  /** Cards 0 and 7: a node of card 7 is counted outside the table of two.  Cards 1 and 0: a node of card 1 is
      counted at 1 and placed at 0. */
  lemma GapsAndSwapsOverrun()
    ensures !CountsInside([0, 7], [IoNode("", 7)]) && CardsKnown([0, 7], [IoNode("", 7)])
    ensures CountsInside([1, 0], [IoNode("", 1)]) && CardsKnown([1, 0], [IoNode("", 1)])
    ensures !FillsExactly([1, 0], [IoNode("", 1)])
  {
    var node := IoNode("", 7);
    assert node in [node];
    OneNodeOverruns([1, 0], 1);
  }

  /** All groups one after the other. */
  function AllGroups(nodes: seq<IoNode>, place: IoNode -> int, n: nat): seq<IoNode> {
    if n == 0 then [] else AllGroups(nodes, place, n - 1) + Group(nodes, place, n - 1)
  }

  /** No node is lost or placed twice: the groups together are the nodes. */
  lemma {:induction false} GroupsPartition(nodes: seq<IoNode>, place: IoNode -> int, n: nat)
    requires forall x :: x in nodes ==> 0 <= place(x) < n
    ensures multiset(AllGroups(nodes, place, n)) == multiset(nodes) && |AllGroups(nodes, place, n)| == |nodes|
    decreases |nodes|
  {
    hide Group, AllGroups;
    if nodes == [] {
      NoGroups(place, n);
    } else {
      GroupsPartition(nodes[..|nodes| - 1], place, n);
      OneMoreNode(nodes, place, n);
      assert LastAmong(nodes, place, n) == [nodes[|nodes| - 1]];
      assert nodes == nodes[..|nodes| - 1] + [nodes[|nodes| - 1]];
    }
  }

  lemma {:induction false} NoGroups(place: IoNode -> int, n: nat)
    ensures AllGroups([], place, n) == []
  {
    if n > 0 {
      NoGroups(place, n - 1);
    }
  }

  /** The last node, as far as it belongs to one of the first `n` groups. */
  function LastAmong(nodes: seq<IoNode>, place: IoNode -> int, n: int): seq<IoNode>
    requires nodes != []
  {
    if place(nodes[|nodes| - 1]) < n then [nodes[|nodes| - 1]] else []
  }

  lemma {:induction false} OneMoreNode(nodes: seq<IoNode>, place: IoNode -> int, n: nat)
    requires nodes != [] && place(nodes[|nodes| - 1]) >= 0
    ensures Joins(AllGroups(nodes, place, n), AllGroups(nodes[..|nodes| - 1], place, n), LastAmong(nodes, place, n))
    decreases n
  {
    hide Group, AllGroups, Joins;
    var front, last := nodes[..|nodes| - 1], nodes[|nodes| - 1];
    GroupsStep(nodes, place, n);
    GroupsStep(front, place, n);
    if n == 0 {
      JoinsNothing();
    } else {
      OneMoreNode(nodes, place, n - 1);
      GroupStep(nodes, place, n - 1);
      var more, added := LastAmong(nodes, place, n - 1), if place(last) == n - 1 then [last] else [];
      assert more + added == LastAmong(nodes, place, n);
      JoinsIn(AllGroups(nodes, place, n - 1), AllGroups(front, place, n - 1), more, Group(front, place, n - 1), added);
    }
  }

  /** The items of `a` are those of `b` and `more`. */
  predicate Joins(a: seq<IoNode>, b: seq<IoNode>, more: seq<IoNode>) {
    multiset(a) == multiset(b) + multiset(more) && |a| == |b| + |more|
  }

  lemma JoinsNothing()
    ensures Joins([], [], [])
  {
  }

  lemma GroupsStep(nodes: seq<IoNode>, place: IoNode -> int, n: nat)
    ensures n == 0 ==> AllGroups(nodes, place, n) == []
    ensures n > 0 ==> AllGroups(nodes, place, n) == AllGroups(nodes, place, n - 1) + Group(nodes, place, n - 1)
  {
  }

  lemma GroupStep(nodes: seq<IoNode>, place: IoNode -> int, i: int)
    requires nodes != []
    ensures var front, last := nodes[..|nodes| - 1], nodes[|nodes| - 1];
            Group(nodes, place, i) == Group(front, place, i) + if place(last) == i then [last] else []
  {
  }

  lemma JoinsIn(a: seq<IoNode>, b: seq<IoNode>, more: seq<IoNode>, g: seq<IoNode>, added: seq<IoNode>)
    requires Joins(a, b, more)
    ensures Joins(a + (g + added), b + g, more + added)
  {
  }

  /** The counting pass; it fails on the first count that falls outside the table. */
  method CountIos(nodes: seq<IoNode>, n: nat) returns (inside: bool, count: array<nat>)
    ensures fresh(count) && count.Length == n
    ensures inside == forall x :: x in nodes ==> 0 <= x.cardId < n
    ensures inside ==> forall i :: 0 <= i < n ==> count[i] == |Group(nodes, ById(), i)|
  {
    count := new nat[n](_ => 0);
    var k := 0;
    while k < |nodes|
      invariant 0 <= k <= |nodes| && forall j :: 0 <= j < k ==> 0 <= nodes[j].cardId < n
      invariant forall i :: 0 <= i < n ==> count[i] == |Group(nodes[..k], ById(), i)|
    {
      assert nodes[k] in nodes && nodes[..k + 1][..k] == nodes[..k];
      if !(0 <= nodes[k].cardId < n) {
        return false, count;
      }
      count[nodes[k].cardId] := count[nodes[k].cardId] + 1;
      k := k + 1;
    }
    assert nodes[..k] == nodes;
    inside := true;
  }

  /** The placing of one node, if there is room. */
  method Place(device: Device, node: IoNode, ghost room: nat, ghost content: seq<IoNode>) returns (placed: bool)
    requires Holds(device, room, content)
    modifies device`nIoDevices, device.ioDevices
    ensures placed == (|content| < room)
    ensures placed ==> Holds(device, room, content + [node])
  {
    assert device.nIoDevices == |content|;
    if device.nIoDevices == device.ioDevices.Length {
      return false;
    }
    device.ioDevices[device.nIoDevices] := node;
    device.nIoDevices := device.nIoDevices + 1;
    placed := true;
  }

  /** What each device holds after the first nodes are placed, and that there is room for the rest. */
  ghost predicate Placed(devices: seq<Device>, nodes: seq<IoNode>, ids: seq<int>, k: nat)
    requires |ids| == |devices| && k <= |nodes|
    reads devices, set d | d in devices :: d.ioDevices
  {
    forall i :: 0 <= i < |devices| ==>
      Holds(devices[i], |Group(nodes, ById(), i)|, Group(nodes[..k], ByIndex(ids), i))
  }

  ghost predicate Holds(d: Device, room: nat, content: seq<IoNode>)
    reads d, d.ioDevices
  {
    d.nIoDevices <= d.ioDevices.Length == room && d.ioDevices[..d.nIoDevices] == content
  }

  /** No two devices share themselves or their arrays. */
  ghost predicate Apart(devices: seq<Device>)
    reads devices
  {
    forall i, j :: 0 <= i < j < |devices| ==> devices[i] != devices[j] && devices[i].ioDevices != devices[j].ioDevices
  }

  /** The allocating pass. */
  method AllocateAll(devices: seq<Device>, count: array<nat>)
    requires count.Length == |devices| && forall i, j :: 0 <= i < j < |devices| ==> devices[i] != devices[j]
    modifies devices
    ensures Apart(devices) && forall i :: 0 <= i < |devices| ==> fresh(devices[i].ioDevices)
    ensures forall i :: 0 <= i < |devices| ==>
              devices[i].nIoDevices == 0 && devices[i].ioDevices.Length == count[i]
  {
    var k := 0;
    while k < |devices|
      invariant 0 <= k <= |devices|
      invariant forall i :: 0 <= i < k ==> fresh(devices[i].ioDevices) && allocated(devices[i].ioDevices)
      invariant forall i, j :: 0 <= i < j < k ==> devices[i].ioDevices != devices[j].ioDevices
      invariant forall i :: 0 <= i < k ==> devices[i].nIoDevices == 0 && devices[i].ioDevices.Length == count[i]
    {
      devices[k].nIoDevices := 0;
      devices[k].ioDevices := new IoNode[count[k]](_ => IoNode("", 0));
      k := k + 1;
    }
  }

  /** One step of the filling pass; it fails on a node of no known card, and on one for which there is no
      room left. */
  method PlaceNext(devices: seq<Device>, nodes: seq<IoNode>, ghost ids: seq<int>, k: nat) returns (placed: bool)
    requires k < |nodes| && ids == Ids(devices) && Apart(devices) && Placed(devices, nodes, ids, k)
    modifies devices, set d | d in devices :: d.ioDevices
    ensures placed ==> nodes[k].cardId in ids && Apart(devices) && Placed(devices, nodes, ids, k + 1)
    ensures !placed ==> !FillsExactly(ids, nodes)
    ensures forall i :: 0 <= i < |devices| ==> devices[i].ioDevices == old(devices[i].ioDevices)
  {
    hide Group, FirstIndex, Ids, Holds;
    assert nodes[k] in nodes;
    var cardIndex := GetIndexFromCardId(devices, nodes[k].cardId);
    assert ByIndex(ids)(nodes[k]) == cardIndex;
    if cardIndex == -1 {
      return false;
    }
    NextInGroup(nodes, ByIndex(ids), k, cardIndex);
    GroupGrows(nodes, ByIndex(ids), cardIndex, k + 1);
    ghost var room, content := |Group(nodes, ById(), cardIndex)|, Group(nodes[..k], ByIndex(ids), cardIndex);
    assert Holds(devices[cardIndex], room, content);
    placed := Place(devices[cardIndex], nodes[k], room, content);
    if !placed {
      return;
    }
    forall i | 0 <= i < |devices|
      ensures Holds(devices[i], |Group(nodes, ById(), i)|, Group(nodes[..k + 1], ByIndex(ids), i))
    {
      NextInGroup(nodes, ByIndex(ids), k, i);
      if i != cardIndex {
        assert old(Holds(devices[i], |Group(nodes, ById(), i)|, Group(nodes[..k], ByIndex(ids), i)));
        assert devices[i] != devices[cardIndex] && devices[i].ioDevices != devices[cardIndex].ioDevices;
      }
    }
  }

  lemma NextInGroup(nodes: seq<IoNode>, place: IoNode -> int, k: nat, i: int)
    requires k < |nodes|
    ensures Group(nodes[..k + 1], place, i) ==
            if place(nodes[k]) == i then Group(nodes[..k], place, i) + [nodes[k]] else Group(nodes[..k], place, i)
  {
    assert nodes[..k + 1][..k] == nodes[..k];
  }

  /** Groups that agree in total size and nowhere exceed agree in size everywhere. */
  lemma {:induction false} NoneSmaller(nodes: seq<IoNode>, f: IoNode -> int, g: IoNode -> int, n: nat)
    requires forall i :: 0 <= i < n ==> |Group(nodes, f, i)| <= |Group(nodes, g, i)|
    ensures |AllGroups(nodes, f, n)| <= |AllGroups(nodes, g, n)|
    ensures |AllGroups(nodes, f, n)| == |AllGroups(nodes, g, n)| ==>
              forall i :: 0 <= i < n ==> |Group(nodes, f, i)| == |Group(nodes, g, i)|
  {
    hide Group, AllGroups;
    GroupsStep(nodes, f, n);
    GroupsStep(nodes, g, n);
    if n > 0 {
      NoneSmaller(nodes, f, g, n - 1);
    }
  }

  /** Not overrunning any allocation means filling all of them. */
  lemma FillsCompletely(ids: seq<int>, nodes: seq<IoNode>)
    requires FillsExactly(ids, nodes)
    ensures forall i :: 0 <= i < |ids| ==> |Group(nodes, ByIndex(ids), i)| == |Group(nodes, ById(), i)|
  {
    GroupsPartition(nodes, ByIndex(ids), |ids|);
    GroupsPartition(nodes, ById(), |ids|);
    NoneSmaller(nodes, ByIndex(ids), ById(), |ids|);
  }

  /** The filling pass. */
  method FillAll(devices: seq<Device>, nodes: seq<IoNode>, ghost ids: seq<int>) returns (filled: bool)
    requires ids == Ids(devices) && Apart(devices) && CountsInside(ids, nodes) && Placed(devices, nodes, ids, 0)
    modifies devices, set d | d in devices :: d.ioDevices
    ensures filled == FillsExactly(ids, nodes)
    ensures filled ==> Placed(devices, nodes, ids, |nodes|)
  {
    hide FirstIndex, Ids, Holds, Group, FillsExactly, Apart, Placed;
    var k := 0;
    while k < |nodes|
      invariant 0 <= k <= |nodes| && Apart(devices) && Placed(devices, nodes, ids, k)
      invariant forall j :: 0 <= j < k ==> nodes[j].cardId in ids
      invariant forall i :: 0 <= i < |devices| ==> devices[i].ioDevices == old(devices[i].ioDevices)
    {
      filled := PlaceNext(devices, nodes, ids, k);
      if !filled {
        return;
      }
      k := k + 1;
    }
    filled := true;
    AllPlaced(devices, nodes, ids);
  }

  /** When all nodes have been placed, no allocation was overrun. */
  lemma AllPlaced(devices: seq<Device>, nodes: seq<IoNode>, ids: seq<int>)
    requires |ids| == |devices| && Placed(devices, nodes, ids, |nodes|)
    requires CountsInside(ids, nodes) && CardsKnown(ids, nodes)
    ensures FillsExactly(ids, nodes)
  {
    assert nodes[..|nodes|] == nodes;
    forall i | 0 <= i < |ids|
      ensures |Group(nodes, ByIndex(ids), i)| <= |Group(nodes, ById(), i)|
    {
      assert Holds(devices[i], |Group(nodes, ById(), i)|, Group(nodes, ByIndex(ids), i));
    }
  }

  /** `io_list_to_array`: it fails, by counting or placing a node outside what is allocated or under a card
      that is not known, unless the nodes fill the allocations exactly.  Otherwise each device ends up with
      the nodes of its card, in the order of the list, in an array of exactly the size counted. */
  method IoListToArray(nodes: seq<IoNode>, devices: seq<Device>) returns (filled: bool)
    requires forall i, j :: 0 <= i < j < |devices| ==> devices[i] != devices[j]
    modifies devices
    ensures filled == FillsExactly(Ids(devices), nodes)
    ensures filled ==> forall i :: 0 <= i < |devices| ==>
              devices[i].ioDevices[..] == Group(nodes, ByIndex(Ids(devices)), i)
              && devices[i].nIoDevices == devices[i].ioDevices.Length
  {
    hide FirstIndex, Ids, Holds, Group;
    ghost var ids := Ids(devices);
    var inside, count := CountIos(nodes, |devices|);
    if !inside {
      return false;
    }
    AllocateAll(devices, count);
    forall i | 0 <= i < |devices|
      ensures Holds(devices[i], |Group(nodes, ById(), i)|, Group(nodes[..0], ByIndex(ids), i))
    {
      HoldsNothing(devices[i], nodes, ByIndex(ids), i);
    }
    filled := FillAll(devices, nodes, ids);
    if filled {
      assert nodes[..|nodes|] == nodes;
      FillsCompletely(ids, nodes);
      forall i | 0 <= i < |devices|
        ensures devices[i].ioDevices[..] == Group(nodes, ByIndex(ids), i)
                && devices[i].nIoDevices == devices[i].ioDevices.Length
      {
        HoldsAll(devices[i], Group(nodes, ByIndex(ids), i));
      }
    }
  }

  lemma HoldsNothing(d: Device, nodes: seq<IoNode>, place: IoNode -> int, i: int)
    requires d.nIoDevices == 0
    ensures Holds(d, d.ioDevices.Length, Group(nodes[..0], place, i))
  {
  }

  lemma HoldsAll(d: Device, content: seq<IoNode>)
    requires Holds(d, |content|, content)
    ensures d.ioDevices[..] == content && d.nIoDevices == d.ioDevices.Length
  {
    assert |d.ioDevices[..d.nIoDevices]| == d.nIoDevices;
  }
}
