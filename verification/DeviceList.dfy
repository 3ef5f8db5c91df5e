/** The linked list of devices handed out through the C interface, and its release (NK_C_API.cc). */
module DeviceList {
  import opened Replies
  import opened Enumeration

  const MAXIMUM_STR_REPLY_LENGTH: nat := 8192

  class CText {
    const text: string

    constructor (text: string)
      ensures this.text == text
    {
      this.text := text;
    }
  }

  /** NK_device_info */
  class Node {
    var model: DeviceModel
    var path: CText?
    var serialNumber: CText?
    var next: Node?

    constructor ()
      ensures path == null && serialNumber == null && next == null
    {
      model := PRO;
      path, serialNumber, next := null, null, null;
    }
  }

  /** strndup */
  function Truncated(s: string): string {
    if |s| <= MAXIMUM_STR_REPLY_LENGTH then s else s[..MAXIMUM_STR_REPLY_LENGTH]
  }

  /** What fits the limit of 8192 characters is duplicated whole, and of anything longer that many of them. */
  lemma TruncatedIs(s: string)
    ensures Truncated(s) <= s && |Truncated(s)| == if |s| < 8192 then |s| else 8192
  {
  }

  /** The blocks that are allocated, and those given back, in order. Some strndup calls find no memory. */
  class Memory {
    const succeeds: nat -> bool
    var duplications: nat
    ghost var blocks: set<object>
    ghost var released: seq<object>

    constructor (succeeds: nat -> bool)
      ensures this.succeeds == succeeds && duplications == 0 && blocks == {} && released == []
    {
      this.succeeds, duplications, blocks, released := succeeds, 0, {}, [];
    }

    method StrNDup(s: string) returns (p: CText?)
      modifies this
      ensures duplications == old(duplications) + 1 && released == old(released)
      ensures p != null <==> succeeds(old(duplications))
      ensures if p == null then blocks == old(blocks)
              else fresh(p) && p.text == Truncated(s) && blocks == old(blocks) + {p}
    {
      if succeeds(duplications) {
        p := new CText(Truncated(s));
        blocks := blocks + {p};
      } else {
        p := null;
      }
      duplications := duplications + 1;
    }

    method NewNode() returns (n: Node)
      modifies this
      ensures fresh(n) && n.path == null && n.serialNumber == null && n.next == null
      ensures blocks == old(blocks) + {n} && released == old(released) && duplications == old(duplications)
    {
      n := new Node();
      blocks := blocks + {n};
    }

    /** free and delete: only what is allocated can be given back. */
    method Free(o: object?)
      requires o != null ==> o in blocks
      modifies this
      ensures blocks == old(blocks) - {o} && duplications == old(duplications)
      ensures released == old(released) + (if o == null then [] else [o])
    {
      if o != null {
        blocks := blocks - {o};
        released := released + [o];
      }
    }
  }

  // ---------- Lists ----------

  /** The nodes hang together in this order, and the last one ends the list. */
  ghost predicate IsList(list: Node?, nodes: seq<Node>)
    reads nodes`next
  {
    && list == (if nodes == [] then null else nodes[0])
    && (forall i, j :: 0 <= i < |nodes| && j == i + 1 < |nodes| ==> nodes[i].next == nodes[j])
    && (nodes != [] ==> nodes[|nodes| - 1].next == null)
  }

  ghost function Block(p: object?): seq<object> {
    if p == null then [] else [p]
  }

  ghost function BlocksOf(n: Node): seq<object>
    reads n`path, n`serialNumber
  {
    Block(n.path) + Block(n.serialNumber) + [n]
  }

  /** Everything a list owns, in the order it is released: from the end of the list to its beginning. */
  ghost function Owned(nodes: seq<Node>): seq<object>
    reads nodes`path, nodes`serialNumber
  {
    if nodes == [] then [] else Owned(nodes[1..]) + BlocksOf(nodes[0])
  }

  ghost predicate Distinct(s: seq<object>) {
    forall i, j :: 0 <= i < j < |s| ==> s[i] != s[j]
  }

  ghost function Elements(s: seq<object>): set<object> {
    set o | o in s
  }

  /** No block belongs to the list twice, and all are allocated. */
  ghost predicate Releasable(mem: Memory, nodes: seq<Node>)
    reads mem`blocks, nodes`path, nodes`serialNumber
  {
    Distinct(Owned(nodes)) && Elements(Owned(nodes)) <= mem.blocks
  }

  ghost predicate Describes(n: Node, info: DeviceInfo)
    reads n`model, n`path, n`serialNumber
  {
    && n.model == info.model
    && n.path != null && n.path.text == Truncated(info.path)
    && n.serialNumber != null && n.serialNumber.text == Truncated(info.serialNumber)
  }

  lemma {:induction false} OwnedAppend(nodes: seq<Node>, n: Node)
    ensures Owned(nodes + [n]) == BlocksOf(n) + Owned(nodes)
  {
    hide BlocksOf;
    if nodes == [] {
      assert nodes + [n] == [n];
    } else {
      OwnedAppend(nodes[1..], n);
      assert (nodes + [n])[1..] == nodes[1..] + [n];
    }
  }

  // ---------- Release ----------

  lemma ListTail(list: Node, nodes: seq<Node>)
    requires IsList(list, nodes)
    ensures IsList(list.next, nodes[1..])
  {
    var tail := nodes[1..];
    forall i, j | 0 <= i < |tail| && j == i + 1 < |tail| ensures tail[i].next == tail[j] {
      assert tail[i] == nodes[i + 1] && tail[j] == nodes[j + 1];
    }
    if tail != [] {
      assert nodes[0].next == nodes[1];
      assert tail[|tail| - 1] == nodes[|nodes| - 1];
    }
  }

  lemma DistinctParts(s: seq<object>, t: seq<object>)
    ensures Distinct(s + t) <==> Distinct(s) && Distinct(t) && Elements(s) !! Elements(t)
    ensures Elements(s + t) == Elements(s) + Elements(t)
  {
    var u := s + t;
    if Distinct(u) {
      forall i, j | 0 <= i < j < |s| ensures s[i] != s[j] {
        assert u[i] == s[i] && u[j] == s[j];
      }
      forall i, j | 0 <= i < j < |t| ensures t[i] != t[j] {
        assert u[|s| + i] == t[i] && u[|s| + j] == t[j];
      }
      forall i, j | 0 <= i < |s| && 0 <= j < |t| ensures s[i] != t[j] {
        assert u[i] == s[i] && u[|s| + j] == t[j];
      }
    }
    if Distinct(s) && Distinct(t) && Elements(s) !! Elements(t) {
      forall i, j | 0 <= i < j < |u| ensures u[i] != u[j] {
        assert i < |s| <= j ==> u[i] in Elements(s) && u[j] in Elements(t);
      }
    }
  }

  method FreeNode(mem: Memory, n: Node)
    requires Distinct(BlocksOf(n)) && Elements(BlocksOf(n)) <= mem.blocks
    modifies mem
    ensures mem.released == old(mem.released) + BlocksOf(n)
    ensures mem.blocks == old(mem.blocks) - Elements(BlocksOf(n))
    ensures mem.duplications == old(mem.duplications)
  {
    ghost var p, q := Block(n.path), Block(n.serialNumber);
    DistinctParts(p + q, [n]);
    DistinctParts(p, q);
    hide Distinct;
    assert n in Elements([n]);
    assert n.path != null ==> n.path in Elements(p);
    assert n.serialNumber != null ==> n.serialNumber in Elements(q);
    mem.Free(n.path);
    mem.Free(n.serialNumber);
    mem.Free(n);
  }

  /** NK_free_device_info: every node and both its strings exactly once, the end of the list first. */
  method NkFreeDeviceInfo(mem: Memory, list: Node?, ghost nodes: seq<Node>)
    requires IsList(list, nodes) && Releasable(mem, nodes)
    modifies mem
    ensures mem.released == old(mem.released) + Owned(nodes)
    ensures mem.blocks == old(mem.blocks) - Elements(Owned(nodes))
    ensures mem.duplications == old(mem.duplications)
    decreases |nodes|
  {
    hide Distinct, Elements, IsList, BlocksOf, Owned;
    EmptyList(list, nodes);
    if list == null {
      return;
    }
    OwnedSplit(list, nodes);
    if list.next != null {
      NkFreeDeviceInfo(mem, list.next, nodes[1..]);
    }
    FreeNode(mem, list);
  }

  lemma EmptyList(list: Node?, nodes: seq<Node>)
    requires IsList(list, nodes)
    ensures list == null <==> nodes == []
    ensures list == null ==> Owned(nodes) == [] && Elements([]) == {}
  {
  }

  lemma OwnedSplit(list: Node, nodes: seq<Node>)
    requires IsList(list, nodes) && Distinct(Owned(nodes)) && nodes != []
    ensures IsList(list.next, nodes[1..])
    ensures Owned(nodes) == Owned(nodes[1..]) + BlocksOf(list)
    ensures list.next == null ==> Owned(nodes[1..]) == [] && Elements(Owned(nodes[1..])) == {}
    ensures Distinct(Owned(nodes[1..])) && Distinct(BlocksOf(list))
    ensures Elements(Owned(nodes)) == Elements(Owned(nodes[1..])) + Elements(BlocksOf(list))
    ensures Elements(Owned(nodes[1..])) !! Elements(BlocksOf(list))
  {
    ListTail(list, nodes);
    DistinctParts(Owned(nodes[1..]), BlocksOf(list));
  }

  // ---------- Construction ----------

  /** copy_device_info */
  method CopyDeviceInfo(mem: Memory, source: DeviceInfo, target: Node) returns (ok: bool)
    requires target in mem.blocks && target.path == null && target.serialNumber == null
    modifies mem, target
    ensures ok == (mem.succeeds(old(mem.duplications)) && mem.succeeds(old(mem.duplications) + 1))
    ensures ok ==> Describes(target, source)
    ensures target.next == null
    ensures mem.duplications == old(mem.duplications) + 2 && mem.released == old(mem.released)
    ensures Distinct(BlocksOf(target))
    ensures mem.blocks == old(mem.blocks) + Elements(BlocksOf(target))
    ensures Elements(BlocksOf(target)) !! old(mem.blocks) - {target}
  {
    target.model := source.model;
    target.path := mem.StrNDup(source.path);
    target.serialNumber := mem.StrNDup(source.serialNumber);
    target.next := null;
    ok := target.path != null && target.serialNumber != null;
  }

  /** The first n strndup calls from the given one on find memory. */
  ghost predicate AllSucceed(succeeds: nat -> bool, from: nat, n: nat) {
    forall m :: from <= m < from + n ==> succeeds(m)
  }

  lemma TwoMore(succeeds: nat -> bool, from: nat, n: nat, total: nat)
    requires AllSucceed(succeeds, from, n) && n + 2 <= total
    ensures AllSucceed(succeeds, from, n + 2) <==> succeeds(from + n) && succeeds(from + n + 1)
    ensures AllSucceed(succeeds, from, total) ==> succeeds(from + n) && succeeds(from + n + 1)
  {
  }

  lemma NoneNeeded(succeeds: nat -> bool, from: nat)
    ensures AllSucceed(succeeds, from, 0)
  {
  }

  /** The nodes so far describe the devices so far, in order. */
  ghost predicate Described(nodes: seq<Node>, infos: seq<DeviceInfo>)
    reads nodes`model, nodes`path, nodes`serialNumber
  {
    |nodes| <= |infos| && forall i :: 0 <= i < |nodes| ==> Describes(nodes[i], infos[i])
  }

  lemma NoneDescribed(infos: seq<DeviceInfo>)
    ensures Described([], infos)
  {
  }

  lemma AnotherDescribed(nodes: seq<Node>, n: Node, infos: seq<DeviceInfo>)
    requires Described(nodes, infos) && |nodes| < |infos| && Describes(n, infos[|nodes|])
    ensures Described(nodes + [n], infos)
  {
  }

  /** A list under construction: what it holds so far, and that all blocks since start are its own. */
  ghost predicate Partial(mem: Memory, list: Node, nodes: seq<Node>, start: set<object>)
    reads mem`blocks, nodes`next, nodes`path, nodes`serialNumber
  {
    && IsList(list, nodes)
    && Distinct(Owned(nodes))
    && Elements(Owned(nodes)) !! start
    && mem.blocks == start + Elements(Owned(nodes))
  }

  /** The new node's blocks and those of the list are different ones. */
  lemma ExtendOwned(nodes: seq<Node>, n: Node)
    requires Distinct(Owned(nodes)) && Distinct(BlocksOf(n)) && Elements(BlocksOf(n)) !! Elements(Owned(nodes))
    ensures Distinct(Owned(nodes + [n]))
    ensures Elements(Owned(nodes + [n])) == Elements(Owned(nodes)) + Elements(BlocksOf(n))
  {
    OwnedAppend(nodes, n);
    DistinctParts(BlocksOf(n), Owned(nodes));
  }

  lemma {:induction false} NodesOwned(nodes: seq<Node>)
    ensures forall x :: x in nodes ==> x in Elements(Owned(nodes))
  {
    if nodes != [] {
      NodesOwned(nodes[1..]);
      assert nodes[0] in BlocksOf(nodes[0]);
      forall x | x in nodes ensures x in Elements(Owned(nodes)) {
        assert x == nodes[0] || x in nodes[1..];
      }
    }
  }

  /** The last node does not occur anywhere else. */
  ghost predicate LastOnce(nodes: seq<Node>) {
    forall i :: 0 <= i < |nodes| - 1 ==> nodes[i] != nodes[|nodes| - 1]
  }

  lemma {:induction false} NodesDistinct(nodes: seq<Node>)
    requires Distinct(Owned(nodes))
    ensures LastOnce(nodes)
  {
    if |nodes| > 1 {
      var tail := nodes[1..];
      DistinctParts(Owned(tail), BlocksOf(nodes[0]));
      NodesDistinct(tail);
      NodesOwned(tail);
      OwnsItself(nodes[0]);
      assert tail[|tail| - 1] == nodes[|nodes| - 1];
      assert nodes[0] !in tail;
      forall i | 0 <= i < |nodes| - 1 ensures nodes[i] != nodes[|nodes| - 1] {
        if i > 0 {
          assert nodes[i] == tail[i - 1];
        }
      }
    }
  }

  /** The first node; if it cannot be completed it is released again. */
  method Begin(mem: Memory, info: DeviceInfo) returns (n: Node, ok: bool)
    modifies mem
    ensures fresh(n)
    ensures if ok then Partial(mem, n, [n], old(mem.blocks)) && Describes(n, info) else mem.blocks == old(mem.blocks)
    ensures ok == (mem.succeeds(old(mem.duplications)) && mem.succeeds(old(mem.duplications) + 1))
    ensures mem.duplications == old(mem.duplications) + 2
  {
    hide Distinct, Elements, IsList, BlocksOf, Owned, Describes;
    n := mem.NewNode();
    ok := CopyDeviceInfo(mem, info, n);
    OwnsItself(n);
    SingleNode(n);
    if !ok {
      Discard(mem, n, [n], old(mem.blocks));
    }
  }

  /** The loop's body: another node after the last one; if it cannot be completed the whole list is released. */
  method Extend(mem: Memory, list: Node, ptr: Node, info: DeviceInfo, ghost nodes: seq<Node>, ghost start: set<object>)
    returns (n: Node, ok: bool)
    requires Partial(mem, list, nodes, start) && nodes != [] && ptr == nodes[|nodes| - 1]
    modifies mem, ptr`next
    ensures fresh(n)
    ensures if ok then Partial(mem, list, nodes + [n], start) && Describes(n, info) else mem.blocks == start
    ensures ok == (mem.succeeds(old(mem.duplications)) && mem.succeeds(old(mem.duplications) + 1))
    ensures mem.duplications == old(mem.duplications) + 2
  {
    hide Distinct, Elements, IsList, BlocksOf, Owned;
    n := Hang(mem, list, ptr, nodes);
    ok := CopyDeviceInfo(mem, info, n);
    OwnsItself(n);
    ExtendOwned(nodes, n);
    if !ok {
      Discard(mem, list, nodes + [n], start);
    }
  }

  /** ptr->next = new NK_device_info() */
  method Hang(mem: Memory, ghost list: Node, ptr: Node, ghost nodes: seq<Node>) returns (n: Node)
    requires IsList(list, nodes) && Distinct(Owned(nodes)) && nodes != [] && ptr == nodes[|nodes| - 1]
    modifies mem, ptr`next
    ensures fresh(n) && n.path == null && n.serialNumber == null && n.next == null
    ensures mem.blocks == old(mem.blocks) + {n}
    ensures mem.released == old(mem.released) && mem.duplications == old(mem.duplications)
    ensures IsList(list, nodes + [n])
  {
    hide Distinct, Owned;
    NodesDistinct(nodes);
    n := mem.NewNode();
    ptr.next := n;
    ghost var all := nodes + [n];
    forall i, j | 0 <= i < |all| && j == i + 1 < |all| ensures all[i].next == all[j] {
      if j < |nodes| {
        assert old(nodes[i].next) == nodes[j];
        assert nodes[i] != ptr;
      }
    }
  }

  lemma SingleNode(n: Node)
    requires n.next == null
    ensures IsList(n, [n]) && Owned([n]) == BlocksOf(n)
  {
  }

  lemma OwnsItself(n: Node)
    ensures n in Elements(BlocksOf(n))
  {
    assert BlocksOf(n)[|BlocksOf(n)| - 1] == n;
  }

  /**
   NK_list_devices: null for no devices or when memory runs out, with everything given back; else a list with a
   node for each device, in order, that owns all it has allocated.
   */
  method NkListDevices(mem: Memory, infos: seq<DeviceInfo>) returns (list: Node?, ghost nodes: seq<Node>)
    modifies mem
    ensures list == null <==> infos == [] || !AllSucceed(mem.succeeds, old(mem.duplications), 2 * |infos|)
    ensures list == null ==> mem.blocks == old(mem.blocks)
    ensures list != null ==>
              && Partial(mem, list, nodes, old(mem.blocks))
              && |nodes| == |infos| && Described(nodes, infos)
  {
    hide Partial, Describes, Described, AllSucceed;
    nodes := [];
    if infos == [] {
      return null, nodes;
    }
    NoneNeeded(mem.succeeds, mem.duplications);
    TwoMore(mem.succeeds, mem.duplications, 0, 2 * |infos|);
    var result, ok := Begin(mem, infos[0]);
    if !ok {
      return null, nodes;
    }
    NoneDescribed(infos);
    AnotherDescribed([], result, infos);
    assert [] + [result] == [result];
    ok, nodes := Complete(mem, result, infos, old(mem.blocks), old(mem.duplications));
    return if ok then result else null, nodes;
  }

  /** The loop over all devices but the first. */
  method Complete(mem: Memory, list: Node, infos: seq<DeviceInfo>, ghost start: set<object>, ghost first: nat)
    returns (ok: bool, ghost nodes: seq<Node>)
    requires infos != [] && Partial(mem, list, [list], start) && Described([list], infos)
    requires mem.duplications == first + 2 && AllSucceed(mem.succeeds, first, 2)
    modifies mem, list`next
    ensures ok == AllSucceed(mem.succeeds, first, 2 * |infos|)
    ensures if ok then Partial(mem, list, nodes, start) && |nodes| == |infos| && Described(nodes, infos)
            else mem.blocks == start
  {
    hide Partial, Describes, Described, AllSucceed;
    var ptr := list;
    nodes := [list];
    for i := 1 to |infos|
      invariant Partial(mem, list, nodes, start) && |nodes| == i && ptr == nodes[i - 1]
      invariant Described(nodes, infos)
      invariant mem.duplications == first + 2 * i && AllSucceed(mem.succeeds, first, 2 * i)
      invariant ptr == list || fresh(ptr)
    {
      TwoMore(mem.succeeds, first, 2 * i, 2 * |infos|);
      var n;
      n, ok := Extend(mem, list, ptr, infos[i], nodes, start);
      if !ok {
        return;
      }
      AnotherDescribed(nodes, n, infos);
      ptr := n;
      nodes := nodes + [n];
    }
    ok := true;
  }

  /** A list that could not be completed is released as a whole. */
  method Discard(mem: Memory, list: Node, ghost nodes: seq<Node>, ghost start: set<object>)
    requires Partial(mem, list, nodes, start)
    modifies mem
    ensures mem.blocks == start && mem.duplications == old(mem.duplications)
  {
    hide Distinct, Elements, IsList, Owned;
    NkFreeDeviceInfo(mem, list, nodes);
  }

  /** What a caller gets and gives back leaves nothing allocated. */
  method ListAndFree(mem: Memory, infos: seq<DeviceInfo>)
    modifies mem
    ensures mem.blocks == old(mem.blocks)
  {
    ghost var nodes;
    var list;
    list, nodes := NkListDevices(mem, infos);
    if list != null {
      NkFreeDeviceInfo(mem, list, nodes);
    }
  }
}
