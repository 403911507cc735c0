/** The controller's network graph as it lies in memory: an array of devices, each the head of a
    linked list of connections, searched and extended in place. */
module Network {
  import opened Topology
  import opened LoopSearch

  /** A device in its slot, or one entry of its list. The ghost fields say where the node hangs. */
  class Node {
    var deviceNum: int
    var discovered: bool
    var isSwitch: bool
    var next: Node?
    ghost const slot: nat
    ghost const position: nat

    constructor (num: int, switch: bool, ghost slot: nat, ghost position: nat)
      ensures deviceNum == num && isSwitch == switch && !discovered && next == null
      ensures this.slot == slot && this.position == position
    {
      deviceNum, discovered, isSwitch, next := num, false, switch, null;
      this.slot, this.position := slot, position;
    }
  }

  /** What a detected loop leads to: the switch in `slot` is to close `port`, or the search for a switch with the
      number that was named runs past the end of the switch list. */
  datatype Command = NoCommand | ClosePort(slot: nat, port: int) | NoSuchSwitch

  /** The lists after a reported link has been added to the first `n` slots. */
  function PartlyLinked(g: Graph, n: nat, dest: int, src: int): Graph
    requires n <= |g.order|
  {
    Graph(g.order, map m | m in g.adj :: if m in g.order[..n] then ExtendedList(m, g.adj[m], dest, src) else g.adj[m])
  }

  lemma SlotOf(g: Graph, num: int) returns (i: nat)
    requires Closed(g) && num in g.adj
    ensures i < |g.order| && g.order[i] == num
  {
    i :| 0 <= i < |g.order| && g.order[i] == num;
  }

  lemma NeighbourKnown(g: Graph, v: int, k: nat)
    requires Closed(g) && v in g.adj && k < |g.adj[v]|
    ensures g.adj[v][k] in g.adj
  {
    var u := g.adj[v][k];
    assert u in g.adj[v];
  }

  lemma PartlyLinkedStep(g: Graph, i: nat, dest: int, src: int)
    requires Closed(g) && i < |g.order|
    ensures var p, p' := PartlyLinked(g, i, dest, src), PartlyLinked(g, i + 1, dest, src);
            var num := g.order[i];
            && p.order == p'.order == g.order && p.adj[num] == g.adj[num]
            && p'.adj == p.adj[num := ExtendedList(num, g.adj[num], dest, src)]
            && (ExtendedList(num, g.adj[num], dest, src) == g.adj[num] ==> p' == p)
    ensures Distinct(g.order)
  {
    assert g.order[..i + 1] == g.order[..i] + [g.order[i]];
  }

  lemma PartlyLinkedOrder(g: Graph, i: nat, dest: int, src: int)
    requires i <= |g.order|
    ensures PartlyLinked(g, i, dest, src).order == g.order
  {
  }

  lemma LoopExistsIsKnown(g: Graph)
    requires Closed(g)
    ensures LoopSearch.LoopExists(g) != 0 ==> LoopSearch.LoopExists(g) in g.adj
  {
    ReportedDeviceIsKnown(g, |g.order|);
  }

  lemma PartlyLinkedEnds(g: Graph, dest: int, src: int)
    requires Closed(g)
    ensures PartlyLinked(g, 0, dest, src) == g
    ensures PartlyLinked(g, |g.order|, dest, src) == AddLink(g, dest, src)
  {
    assert g.order[..|g.order|] == g.order;
  }

  lemma OrderKept(g: Graph, dest: int, src: int)
    ensures AddLink(g, dest, src).order == g.order
  {
  }

  lemma OrderExtended(g: Graph, fd: int)
    ensures AddDevice(g, fd).order == g.order + [DeviceNum(fd)]
  {
  }

  class Controller {
    const MAX_NETWORK_SIZE: nat := 50
    var devices: array<Node?>
    /** Descriptors of the connected switches, in order of connection. */
    var switchList: seq<int>
    ghost var graph: Graph
    ghost var chains: seq<seq<Node>>

    ghost function Nodes(): set<Node>
      reads this`chains
    {
      set i, j | 0 <= i < |chains| && 0 <= j < |chains[i]| :: chains[i][j]
    }

    ghost function Heads(): set<Node>
      reads this`chains
    {
      set i | 0 <= i < |chains| && chains[i] != [] :: chains[i][0]
    }

    /** The chain of slot `i` holds the device and then its list, linked in this order. */
    ghost predicate ChainHolds(i: nat, num: int, row: seq<int>)
      requires i < |chains|
      reads this`chains, Nodes()`deviceNum, Nodes()`next
    {
      var c := chains[i];
      && |c| == |row| + 1
      && c[0].deviceNum == num
      && (forall j :: 0 <= j < |row| ==> c[j + 1].deviceNum == row[j])
      && (forall j :: 0 <= j < |c| ==> c[j].slot == i && c[j].position == j)
      && (forall j, k :: 0 <= j < k < |c| && k == j + 1 ==> c[j].next == c[k])
      && c[|row|].next == null
    }

    ghost predicate Represents(g: Graph)
      reads this`chains, this`devices, devices, Nodes()`deviceNum, Nodes()`next
    {
      && devices.Length == MAX_NETWORK_SIZE
      && |chains| == |g.order| <= MAX_NETWORK_SIZE
      && (forall i :: 0 <= i < |chains| ==> g.order[i] in g.adj && ChainHolds(i, g.order[i], g.adj[g.order[i]]))
      && (forall i :: 0 <= i < |chains| ==> chains[i] != [] && devices[i] == chains[i][0])
      && (forall i :: |chains| <= i < MAX_NETWORK_SIZE ==> devices[i] == null)
    }

    /** The `discovered` marks are those of the devices in `seen`. */
    ghost predicate Marked(seen: seq<int>)
      requires |chains| == |graph.order|
      reads this`chains, this`graph, Heads()`discovered
    {
      forall i :: 0 <= i < |chains| && chains[i] != [] ==> (chains[i][0].discovered <==> graph.order[i] in seen)
    }

    ghost predicate Valid()
      reads this, devices, Nodes()
    {
      && Closed(graph) && Represents(graph) && Marked([])
      && |switchList| == |graph.order|
      && forall i :: 0 <= i < |switchList| ==> DeviceNum(switchList[i]) == graph.order[i]
    }

    constructor ()
      ensures Valid() && fresh(devices) && graph == NO_DEVICES
    {
      devices := new Node?[50](i => null);
      switchList, graph, chains := [], NO_DEVICES, [];
    }

    /** The part of connecting a switch that concerns the graph: it takes the first free slot. */
    method SetupNewSwitch(fd: int)
      requires Valid() && |graph.order| < MAX_NETWORK_SIZE
      requires Admissible(graph, Join(fd))
      modifies this`switchList, this`graph, this`chains, devices
      ensures Valid() && graph == AddDevice(old(graph), fd) && devices == old(devices)
      ensures switchList == old(switchList) + [fd]
      ensures fresh(Nodes() - old(Nodes()))
    {
      hide AddDevice, Distinct;
      switchList := switchList + [fd];
      var i := 0;
      while devices[i] != null
        invariant 0 <= i <= |chains|
        decreases |chains| - i
      {
        i := i + 1;
      }
      var device := new Node(DeviceNum(fd), true, i, 0);
      AttachDevice(device, fd, i);
      AddDeviceKeepsClosed(old(graph), fd);
      assert graph.order == old(graph.order) + [DeviceNum(fd)] by { OrderExtended(old(graph), fd); }
    }

    /** Puts a new device with an empty list in the first free slot. */
    method AttachDevice(device: Node, fd: int, n: nat)
      requires Represents(graph) && Marked([]) && |graph.order| < MAX_NETWORK_SIZE && DeviceNum(fd) !in graph.adj
      requires device.deviceNum == DeviceNum(fd) && device.next == null && !device.discovered
      requires n == |chains| == device.slot && device.position == 0
      modifies this`graph, this`chains, devices
      ensures Represents(graph) && Marked([]) && graph == AddDevice(old(graph), fd)
      ensures chains == old(chains) + [[device]]
    {
      forall i | 0 <= i < n
        ensures ChainHolds(i, graph.order[i], graph.adj[graph.order[i]])
      {
      }
      label before:
      devices[n] := device;
      chains := chains + [[device]];
      graph := AddDevice(graph, fd);
      forall i | 0 <= i <= n
        ensures graph.order[i] in graph.adj && ChainHolds(i, graph.order[i], graph.adj[graph.order[i]])
      {
        if i < n {
          assert chains[i] == old(chains)[i];
          assert old@before(ChainHolds(i, graph.order[i], graph.adj[graph.order[i]]));
        }
      }
    }

    /** Reads or sets the mark of the device in slot `i`. */
    method MarkDiscovered(i: nat, ghost seen: seq<int>)
      requires Closed(graph) && Represents(graph) && Marked(seen) && i < |graph.order|
      modifies Heads()`discovered
      ensures Represents(graph) && Marked(seen + [graph.order[i]])
    {
      devices[i].discovered := true;
    }

    lemma SlotsHold()
      requires Represents(graph)
      ensures devices.Length == MAX_NETWORK_SIZE && |chains| == |graph.order| <= MAX_NETWORK_SIZE
      ensures forall i :: 0 <= i < |graph.order| ==> devices[i] != null && devices[i].deviceNum == graph.order[i]
      ensures forall i :: 0 <= i < |graph.order| ==> chains[i] != [] && devices[i] == chains[i][0]
    {
      forall i | 0 <= i < |graph.order|
        ensures devices[i] != null && devices[i].deviceNum == graph.order[i]
      {
        assert ChainHolds(i, graph.order[i], graph.adj[graph.order[i]]);
      }
    }

    /** The list of slot `i` after its first `k` entries. */
    ghost function Entry(i: nat, k: nat): Node?
      requires i < |chains|
      reads this`chains
    {
      if k + 1 < |chains[i]| then chains[i][k + 1] else null
    }

    lemma NextEntry(i: nat, num: int, k: nat)
      requires Represents(graph) && i < |graph.order| && graph.order[i] == num
      requires num in graph.adj && k <= |graph.adj[num]|
      ensures |chains| == |graph.order|
      ensures Entry(i, k) == null <==> k == |graph.adj[num]|
      ensures k < |graph.adj[num]| ==> Entry(i, k).deviceNum == graph.adj[num][k] && Entry(i, k).next == Entry(i, k + 1)
      ensures devices.Length == MAX_NETWORK_SIZE && |chains| <= MAX_NETWORK_SIZE && devices[i] != null
      ensures devices[i].next == Entry(i, 0)
    {
      assert ChainHolds(i, num, graph.adj[num]);
    }

    /** Walks the slots to a known device. */
    method FindSlot(num: int, ghost seen: seq<int>) returns (i: nat)
      requires Closed(graph) && Represents(graph) && Marked(seen) && num in graph.adj
      ensures Represents(graph) && Marked(seen)
      ensures i < |graph.order| && graph.order[i] == num
      ensures i < devices.Length && |chains| == |graph.order| && chains[i] != []
      ensures devices[i] == chains[i][0] && devices[i].deviceNum == num
      ensures devices[i].discovered <==> num in seen
    {
      hide Represents, Closed;
      i := 0;
      ghost var at := SlotOf(graph, num);
      SlotsHold();
      while devices[i] != null && devices[i].deviceNum != num
        invariant 0 <= i <= at
        decreases at - i
      {
        i := i + 1;
      }
    }

    /** The recursive search, which leaves exactly the marks and the report of `Visit`. */
    method RecursiveLoopExists(findNode: int, lastNode: int, ghost seen: seq<int>)
      returns (ret: int, ghost later: seq<int>)
      requires Closed(graph) && Represents(graph) && Marked(seen) && findNode in graph.adj
      modifies Heads()`discovered
      ensures Represents(graph) && Marked(later)
      ensures Outcome(ret, later) == Visit(graph, seen, findNode, lastNode)
      decreases |Unseen(graph, seen)|, 0
    {
      hide Represents, Closed, Marked, Nodes;
      var i := FindSlot(findNode, seen);
      if !devices[i].discovered {
        MarkDiscovered(i, seen);
        UnseenDrops(graph, seen, findNode);
        NextEntry(i, findNode, 0);
        ret, later := ScanList(devices[i].next, findNode, lastNode, i, seen + [findNode]);
      } else {
        ret, later := 0, seen;
      }
    }

    /** The loop of the recursive search over the list of `findNode`. */
    method ScanList(first: Node?, findNode: int, lastNode: int, ghost i: nat, ghost seen: seq<int>)
      returns (ret: int, ghost later: seq<int>)
      requires Closed(graph) && Represents(graph) && Marked(seen)
      requires i < |graph.order| && graph.order[i] == findNode && findNode in graph.adj
      requires |chains| == |graph.order| && first == Entry(i, 0)
      modifies Heads()`discovered
      ensures Represents(graph) && Marked(later)
      ensures Outcome(ret, later) == Scan(graph, seen, findNode, lastNode, 0)
      decreases |Unseen(graph, seen)|, 1
    {
      hide Represents, Closed, Marked, Nodes, Unseen, Heads;
      ret, later := 0, seen;
      var nextNode := first;
      ghost var outcome := Scan(graph, seen, findNode, lastNode, 0);
      ghost var k := 0;
      while nextNode != null && ret == 0
        invariant Represents(graph) && Marked(later)
        invariant |Unseen(graph, later)| <= |Unseen(graph, seen)|
        invariant 0 <= k <= |graph.adj[findNode]|
        invariant nextNode == Entry(i, k)
        invariant outcome == if ret != 0 then Outcome(ret, later) else Scan(graph, later, findNode, lastNode, k)
        decreases |graph.adj[findNode]| - k
      {
        NextEntry(i, findNode, k);
        NeighbourKnown(graph, findNode, k);
        var next := nextNode.deviceNum;
        if next != lastNode {
          var j := FindSlot(next, later);
          if devices[j].discovered {
            ret := devices[j].deviceNum;
            return;
          }
          ghost var before := later;
          ret, later := RecursiveLoopExists(next, findNode, later);
          UnseenShrinks(graph, before, later);
        }
        NextEntry(i, findNode, k);
        nextNode := nextNode.next;
        k := k + 1;
      }
      if nextNode == null {
        NextEntry(i, findNode, k);
      }
    }

    /** The searches that the outer scan starts at the neighbours of a root. */
    method SearchFromRoot(first: Node?, root: int, loop0: int, ghost i: nat, ghost seen: seq<int>)
      returns (loop: int, ghost later: seq<int>)
      requires Closed(graph) && Represents(graph) && Marked(seen)
      requires i < |graph.order| && graph.order[i] == root && root in graph.adj
      requires |chains| == |graph.order| && first == Entry(i, 0)
      modifies Heads()`discovered
      ensures Represents(graph) && Marked(later)
      ensures later == FromRoot(graph, seen, root, 0).seen
      ensures loop == if graph.adj[root] == [] then loop0 else FromRoot(graph, seen, root, 0).report
    {
      hide Represents, Closed, Marked, Nodes, Unseen, Heads, Visit;
      loop, later := loop0, seen;
      var nextNode := first;
      ghost var outcome := FromRoot(graph, seen, root, 0);
      ghost var k := 0;
      while nextNode != null
        invariant Represents(graph) && Marked(later)
        invariant 0 <= k <= |graph.adj[root]|
        invariant nextNode == Entry(i, k)
        invariant outcome == FromRoot(graph, later, root, k)
        invariant loop == if k == 0 then loop0 else 0
        decreases |graph.adj[root]| - k
      {
        NextEntry(i, root, k);
        NeighbourKnown(graph, root, k);
        loop, later := RecursiveLoopExists(nextNode.deviceNum, root, later);
        if loop != 0 {
          break;
        }
        NextEntry(i, root, k);
        nextNode := nextNode.next;
        k := k + 1;
      }
      if nextNode == null {
        NextEntry(i, root, k);
      }
    }

    /** The outer scan: it returns the report of `LoopSearch.LoopExists` and removes every mark. */
    method LoopExists() returns (loop: int)
      requires Closed(graph) && Represents(graph) && Marked([])
      modifies Heads()`discovered
      ensures Represents(graph) && Marked([])
      ensures loop == LoopSearch.LoopExists(graph)
    {
      hide Represents, Closed, Marked, Nodes, Unseen, Heads, Search;
      loop := 0;
      ghost var seen := [];
      SlotsHold();
      var i := 0;
      while i < MAX_NETWORK_SIZE
        invariant Represents(graph) && Marked(seen)
        invariant devices.Length == MAX_NETWORK_SIZE && 0 <= i <= MAX_NETWORK_SIZE
        invariant |graph.order| <= MAX_NETWORK_SIZE
        invariant ScanSlots(graph, if i <= |graph.order| then i else |graph.order|) == Outcome(loop, seen)
      {
        loop, seen := ScanSlot(i, loop, seen);
        i := i + 1;
      }
      RemoveMarks(seen);
    }

    /** One turn of the outer scan. */
    method ScanSlot(i: nat, loop0: int, ghost seen: seq<int>) returns (loop: int, ghost later: seq<int>)
      requires Closed(graph) && Represents(graph) && Marked(seen) && i < MAX_NETWORK_SIZE
      requires i < |graph.order| ==> Outcome(loop0, seen) == ScanSlots(graph, i)
      modifies Heads()`discovered
      ensures Represents(graph) && Marked(later)
      ensures if i < |graph.order| then Outcome(loop, later) == ScanSlots(graph, i + 1)
              else loop == loop0 && later == seen
    {
      loop, later := loop0, seen;
      SlotsHold();
      if devices[i] != null && !devices[i].discovered {
        var root := devices[i].deviceNum;
        MarkDiscovered(i, seen);
        NextEntry(i, root, 0);
        loop, later := SearchFromRoot(devices[i].next, root, loop0, i, seen + [root]);
      }
    }

    method RemoveMarks(ghost seen: seq<int>)
      requires Closed(graph) && Represents(graph) && Marked(seen)
      modifies Heads()`discovered
      ensures Represents(graph) && Marked([])
    {
      hide Closed;
      SlotsHold();
      var i := 0;
      while i < MAX_NETWORK_SIZE
        invariant Represents(graph) && 0 <= i <= MAX_NETWORK_SIZE
        invariant forall j :: 0 <= j < i && j < |chains| ==> !chains[j][0].discovered
      {
        if devices[i] != null {
          devices[i].discovered := false;
        }
        i := i + 1;
      }
    }

    /** Walks the list of slot `i` to its end, or to an entry for one of the two devices. */
    method LastNode(i: nat, dest: int, src: int, ghost g: Graph) returns (node: Node, duplicate: bool)
      requires Represents(g) && i < |g.order|
      ensures Represents(g) && i < |chains|
      ensures duplicate <==> dest in g.adj[g.order[i]] || src in g.adj[g.order[i]]
      ensures !duplicate ==> |chains[i]| > 0 && node == chains[i][|chains[i]| - 1] && node in Nodes()
    {
      ghost var row := g.adj[g.order[i]];
      assert ChainHolds(i, g.order[i], row);
      node := devices[i];
      ghost var k := 0;
      while node.next != null
        invariant 0 <= k <= |row| && node == chains[i][k]
        invariant node.next == if k < |row| then chains[i][k + 1] else null
        invariant dest !in row[..k] && src !in row[..k]
        decreases |row| - k
      {
        node := node.next;
        k := k + 1;
        assert row[..k] == row[..k - 1] + [row[k - 1]];
        if node.deviceNum == dest || node.deviceNum == src {
          assert row[k - 1] in row;
          return node, true;
        }
      }
      assert row[..k] == row;
      duplicate := false;
    }

    /** Appends an entry for device `num` to the list of slot `i`. */
    method Append(i: nat, node: Node, num: int, ghost g: Graph, ghost g': Graph) returns (ghost entry: Node)
      requires Represents(g) && Distinct(g.order) && i < |g.order|
      requires |chains[i]| > 0 && node == chains[i][|chains[i]| - 1]
      requires g'.order == g.order && g'.adj == g.adj[g.order[i] := g.adj[g.order[i]] + [num]]
      modifies this`chains, node`next
      ensures Represents(g') && fresh(entry) && !entry.discovered
      ensures chains == old(chains)[i := old(chains)[i] + [entry]]
    {
      forall j | 0 <= j < |chains|
        ensures ChainHolds(j, g.order[j], g.adj[g.order[j]])
      {
      }
      label before:
      var newNode := new Node(num, false, i, |chains[i]|);
      entry := newNode;
      node.next := newNode;
      chains := chains[i := chains[i] + [entry]];
      forall j | 0 <= j < |chains|
        ensures g'.order[j] in g'.adj && ChainHolds(j, g'.order[j], g'.adj[g'.order[j]])
      {
        assert old@before(ChainHolds(j, g.order[j], g.adj[g.order[j]]));
        if j != i {
          assert g.order[j] != g.order[i];
          assert chains[j] == old(chains)[j];
        }
      }
    }

    /** One turn of the loop that records a reported link in both lists. */
    method LinkSlot(i: nat, dest: int, src: int)
      requires Closed(graph) && dest in graph.adj && src in graph.adj
      requires i < |graph.order| && Represents(PartlyLinked(graph, i, dest, src)) && Marked([])
      modifies this`chains, Nodes()`next
      ensures Represents(PartlyLinked(graph, i + 1, dest, src)) && |chains| == |graph.order| && Marked([])
      ensures fresh(Nodes() - old(Nodes())) && Heads() == old(Heads())
    {
      hide Represents, Closed, PartlyLinked;
      ghost var g := PartlyLinked(graph, i, dest, src);
      ghost var g' := PartlyLinked(graph, i + 1, dest, src);
      PartlyLinkedStep(graph, i, dest, src);
      SlotHolds(g, i);
      var num := devices[i].deviceNum;
      if num == dest || num == src {
        var node, duplicate := LastNode(i, dest, src, g);
        if !duplicate {
          ghost var entry := Append(i, node, if num == dest then src else dest, g, g');
          HeadsKept(old(chains), i, entry);
        }
      }
    }

    lemma SlotHolds(g: Graph, i: nat)
      requires Represents(g) && i < |g.order|
      ensures devices.Length == MAX_NETWORK_SIZE && |chains| == |g.order| <= MAX_NETWORK_SIZE
      ensures devices[i] != null && devices[i].deviceNum == g.order[i] && g.order[i] in g.adj
    {
      assert ChainHolds(i, g.order[i], g.adj[g.order[i]]);
    }

    lemma HeadsKept(before: seq<seq<Node>>, i: nat, entry: Node)
      requires i < |before| && before[i] != []
      requires chains == before[i := before[i] + [entry]]
      ensures Heads() == set j | 0 <= j < |before| && before[j] != [] :: before[j][0]
      ensures Nodes() == {entry} + set j, k | 0 <= j < |before| && 0 <= k < |before[j]| :: before[j][k]
    {
      assert chains[i][|before[i]|] == entry;
      forall j, k | 0 <= j < |before| && 0 <= k < |before[j]|
        ensures before[j][k] in Nodes()
      {
        assert chains[j][k] == before[j][k];
      }
      forall j | 0 <= j < |before| && before[j] != []
        ensures before[j][0] in Heads()
      {
        assert chains[j][0] == before[j][0];
      }
    }

    /** Records a reported link in the lists of both devices. */
    method RecordLink(dest: int, src: int)
      requires Closed(graph) && Represents(graph) && Marked([]) && dest in graph.adj && src in graph.adj
      modifies this`chains, this`graph, Nodes()`next
      ensures Closed(graph) && Represents(graph) && Marked([]) && graph == AddLink(old(graph), dest, src)
      ensures fresh(Nodes() - old(Nodes())) && Heads() == old(Heads())
    {
      hide Represents, Closed, PartlyLinked;
      ghost var g := graph;
      var i := 0;
      PartlyLinkedEnds(g, dest, src);
      PartShape(g);
      while i < MAX_NETWORK_SIZE
        invariant devices.Length == MAX_NETWORK_SIZE && 0 <= i <= MAX_NETWORK_SIZE && |g.order| <= MAX_NETWORK_SIZE
        invariant graph == g && |chains| == |g.order| && Marked([])
        invariant Represents(PartlyLinked(g, if i < |g.order| then i else |g.order|, dest, src))
        invariant fresh(Nodes() - old(Nodes())) && Heads() == old(Heads())
      {
        PartShape(PartlyLinked(g, if i < |g.order| then i else |g.order|, dest, src));
        PartlyLinkedOrder(g, if i < |g.order| then i else |g.order|, dest, src);
        if devices[i] != null {
          LinkSlot(i, dest, src);
        }
        i := i + 1;
      }
      AddLinkKeepsClosed(g, dest, src);
      graph := AddLink(g, dest, src);
    }

    lemma PartShape(g: Graph)
      requires Represents(g)
      ensures devices.Length == MAX_NETWORK_SIZE && |chains| == |g.order| <= MAX_NETWORK_SIZE
      ensures forall i :: 0 <= i < MAX_NETWORK_SIZE ==> (devices[i] == null <==> |g.order| <= i)
    {
      forall i | 0 <= i < |g.order|
        ensures devices[i] != null
      {
        assert devices[i] == chains[i][0];
      }
    }

    /** Descriptors that a device number holds whole; the search for the switch to act on compares the two. */
    predicate Narrow()
      reads this`switchList
    {
      forall i :: 0 <= i < |switchList| ==> 0 <= switchList[i] < 0x100
    }

    /** The descriptor of a device does not fit a device number. */
    ghost predicate TooWide(num: int)
      requires |switchList| == |graph.order|
      reads this`switchList, this`graph
    {
      exists i :: 0 <= i < |switchList| && graph.order[i] == num && !(0 <= switchList[i] < 0x100)
    }

    lemma NoNull()
      requires Closed(graph) && |switchList| == |graph.order|
      ensures !TooWide(0)
    {
    }

    /** Records a reported link and looks for a loop; the switch of the reported device is asked to close a
        port. There is no such switch exactly when the descriptor of that device does not fit a device number. */
    method AddConnection(dest: int, src: int, srcPort: int) returns (command: Command)
      requires Valid() && dest in graph.adj && src in graph.adj
      modifies this`chains, this`graph, Nodes()
      ensures Valid() && graph == AddLink(old(graph), dest, src)
      ensures fresh(Nodes() - old(Nodes()))
      ensures command.NoCommand? <==> LoopSearch.LoopExists(graph) == 0
      ensures command.ClosePort? ==> command.slot < |switchList| && command.port == srcPort
      ensures command.ClosePort? ==> switchList[command.slot] == LoopSearch.LoopExists(graph)
      ensures command.NoSuchSwitch? <==> TooWide(LoopSearch.LoopExists(graph))
      ensures Narrow() ==> !command.NoSuchSwitch?
    {
      hide Represents, Closed, LoopSearch.LoopExists, AddLink;
      HeadsAreNodes();
      OrderKept(graph, dest, src);
      RecordLink(dest, src);
      NoNull();
      command := NoCommand;
      var loopedDevice := LoopExists();
      if loopedDevice != 0 {
        LoopExistsIsKnown(graph);
        var j := SwitchNumbered(loopedDevice);
        command := if j < |switchList| then ClosePort(j, srcPort) else NoSuchSwitch;
      }
    }

    /** The place of a switch in the list of switches, or the end of the list: no switch has the number, because the
        descriptor of the device does not fit a device number. */
    method SwitchNumbered(num: int) returns (j: nat)
      requires Closed(graph) && num in graph.adj && |switchList| == |graph.order|
      requires forall i :: 0 <= i < |switchList| ==> DeviceNum(switchList[i]) == graph.order[i]
      ensures j < |switchList| ==> switchList[j] == num && graph.order[j] == num
      ensures j >= |switchList| <==> TooWide(num)
    {
      ghost var at := SlotOf(graph, num);
      j := 0;
      while j < |switchList| && switchList[j] != num
        invariant 0 <= j <= |switchList|
        invariant forall i :: 0 <= i < j ==> switchList[i] != num
      {
        j := j + 1;
      }
      if j < |switchList| {
        SlotsOfNumber(num, j);
      }
      assert graph.order[at] == num;
    }

    /** A switch with the number of a device is that device. */
    lemma SlotsOfNumber(num: int, j: nat)
      requires Closed(graph) && num in graph.adj && j < |switchList| == |graph.order| && switchList[j] == num
      requires forall i :: 0 <= i < |switchList| ==> DeviceNum(switchList[i]) == graph.order[i]
      ensures 0 <= num < 0x100 && graph.order[j] == num
      ensures forall i :: 0 <= i < |switchList| && graph.order[i] == num ==> i == j
    {
      var at := SlotOf(graph, num);
      assert DeviceNum(switchList[at]) == num;
    }

    lemma HeadsAreNodes()
      ensures Heads() <= Nodes()
    {
    }
  }
}
