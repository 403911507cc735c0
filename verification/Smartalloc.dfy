/** The checked allocator of smartalloc.c: chains of track nodes in memory, and the bytes of the
    blocks with their margins. Raw `malloc` appears as a parameter: the address it returned. */
module Smartalloc {
  import opened Bytes
  import opened AllocTable
  import opened Wrappers

  const PATTERN: Byte := 0xA
  const MARGIN: nat := 4

  class TrackNode {
    const data: nat
    const space: nat
    const needsFree: bool
    const margin: nat
    var next: TrackNode?
    /** Order of creation: a chain holds later nodes first. */
    ghost const stamp: nat

    constructor (block: Block, next: TrackNode?, ghost stamp: nat)
      ensures Record() == block && this.next == next && this.stamp == stamp
    {
      data, space, needsFree, margin := block.data, block.space, block.needsFree, block.margin;
      this.next := next;
      this.stamp := stamp;
    }

    function Record(): Block {
      Block(data, space, needsFree, margin)
    }
  }

  function Recorded(chain: seq<TrackNode>): (r: seq<Block>)
    ensures |r| == |chain|
    ensures forall i :: 0 <= i < |chain| ==> r[i] == chain[i].Record()
  {
    seq(|chain|, i requires 0 <= i < |chain| => chain[i].Record())
  }

  function Tables(chains: seq<seq<TrackNode>>): (t: Table)
    ensures |t| == |chains|
    ensures forall h :: 0 <= h < |chains| ==> t[h] == Recorded(chains[h])
  {
    seq(|chains|, h requires 0 <= h < |chains| => Recorded(chains[h]))
  }

  lemma TablesAfterPrepend(chains: seq<seq<TrackNode>>, h: nat, node: TrackNode)
    requires h < |chains|
    ensures Tables(chains[h := [node] + chains[h]]) == Tables(chains)[h := [node.Record()] + Tables(chains)[h]]
  {
    assert Recorded([node] + chains[h]) == [node.Record()] + Recorded(chains[h]);
  }

  lemma TablesAfterUnlink(chains: seq<seq<TrackNode>>, h: nat, k: nat)
    requires h < |chains| && k < |chains[h]|
    ensures Tables(chains[h := chains[h][..k] + chains[h][k + 1..]])
         == Tables(chains)[h := Tables(chains)[h][..k] + Tables(chains)[h][k + 1..]]
  {
    assert Recorded(chains[h][..k] + chains[h][k + 1..]) == Recorded(chains[h])[..k] + Recorded(chains[h])[k + 1..];
  }

  class TrackTable {
    var trackHash: array<TrackNode?>
    var allocatedBytes: nat
    ghost var chains: seq<seq<TrackNode>>
    ghost var clock: nat

    ghost function Nodes(): set<TrackNode>
      reads this`chains
    {
      set h, i | 0 <= h < |chains| && 0 <= i < |chains[h]| :: chains[h][i]
    }

    /** The table of block records that the chains represent. */
    ghost function Table(): Table
      reads this`chains
    {
      Tables(chains)
    }

    ghost predicate Chained(h: nat)
      requires h < |chains| && trackHash.Length == |chains|
      reads this`chains, this`trackHash, this`clock, trackHash, Nodes()`next
    {
      var c := chains[h];
      && trackHash[h] == (if c == [] then null else c[0])
      && (c != [] ==> c[|c| - 1].next == null)
      && (forall i, j :: 0 <= i < j < |c| && j == i + 1 ==> c[i].next == c[j])
      && (forall i :: 0 <= i < |c| ==> c[i].data % HASH_SIZE == h && c[i].stamp < clock)
      && (forall i, j :: 0 <= i < j < |c| ==> c[i].stamp > c[j].stamp)
    }

    ghost predicate Linked()
      reads this`chains, this`trackHash, this`clock, trackHash, Nodes()`next
    {
      && trackHash.Length == |chains| == HASH_SIZE
      && (forall h :: 0 <= h < HASH_SIZE ==> Chained(h))
    }

    ghost predicate Valid()
      reads this, trackHash, Nodes()`next
    {
      Linked() && allocatedBytes == Space(Table()) % ULONG
    }

    constructor ()
      ensures Valid() && fresh(trackHash) && Table() == NoBlocks()
    {
      trackHash := new TrackNode?[HASH_SIZE](h => null);
      allocatedBytes, clock := 0, 0;
      chains := seq(HASH_SIZE, h => []);
      new;
      assert Table() == NoBlocks();
      EmptySpace(NoBlocks());
    }

    /** Puts a new node at the head of the chain of its hash. */
    method Prepend(block: Block) returns (ghost node: TrackNode)
      requires Linked()
      modifies this`chains, this`clock, trackHash
      ensures Linked() && trackHash == old(trackHash)
      ensures fresh(node) && node.Record() == block
      ensures var h := block.data % HASH_SIZE; chains == old(chains)[h := [node] + old(chains)[h]]
    {
      assert forall k :: 0 <= k < HASH_SIZE ==> Chained(k);
      label before:
      var h := block.data % HASH_SIZE;
      var temp := new TrackNode(block, trackHash[h], clock);
      node := temp;
      trackHash[h] := temp;
      chains := chains[h := [temp] + chains[h]];
      clock := clock + 1;
      forall k | 0 <= k < HASH_SIZE
        ensures Chained(k)
      {
        assert old@before(Chained(k));
        assert k != h ==> chains[k] == old(chains)[k];
      }
    }

    /** smartalloc_track, once the library is initialised. */
    method Track(block: Block)
      requires Valid()
      modifies this`allocatedBytes, this`chains, this`clock, trackHash
      ensures Valid() && trackHash == old(trackHash) && fresh(Nodes() - old(Nodes()))
      ensures Table() == AllocTable.Track(old(Table()), block)
    {
      hide Chained, Tables, Space;
      ghost var h := block.data % HASH_SIZE;
      SpaceAfterTrack(Table(), block);
      AddModulo(Space(Table()), block.space);
      allocatedBytes := (allocatedBytes + block.space) % ULONG;
      ghost var node := Prepend(block);
      TablesAfterPrepend(old(chains), h, node);
      assert forall i, j :: 0 <= i < |chains| && 0 <= j < |chains[i]|
                            ==> chains[i][j] == node || chains[i][j] in old(Nodes());
    }

    /** The head of chain `h` moves on to the next node. */
    method UnlinkHead(h: nat)
      requires Linked() && h < HASH_SIZE && chains[h] != []
      modifies this`chains, trackHash
      ensures Linked() && trackHash == old(trackHash)
      ensures chains == old(chains)[h := old(chains)[h][1..]]
    {
      ghost var c := chains[h];
      assert forall j :: 0 <= j < HASH_SIZE ==> Chained(j);
      assert Chained(h);
      label before:
      trackHash[h] := trackHash[h].next;
      chains := chains[h := c[1..]];
      forall j | 0 <= j < HASH_SIZE
        ensures Chained(j)
      {
        assert old@before(Chained(j));
        if j != h {
          assert chains[j] == old(chains)[j];
        } else if |c| > 1 {
          assert c[0].next == c[1] && c[1..][|c| - 2] == c[|c| - 1];
        }
      }
    }

    lemma NodeOccursOnce(h: nat, k: nat)
      requires Linked() && h < HASH_SIZE && k < |chains[h]|
      ensures forall j, i :: 0 <= j < HASH_SIZE && 0 <= i < |chains[j]| && chains[j][i] == chains[h][k]
                     ==> j == h && i == k
    {
      assert Chained(h);
      forall j, i | 0 <= j < HASH_SIZE && 0 <= i < |chains[j]| && chains[j][i] == chains[h][k]
        ensures j == h && i == k
      {
        assert Chained(j);
        assert chains[h][k].stamp == chains[j][i].stamp;
      }
    }

    /** The node `prev` skips its successor, node number `k` of chain `h`. */
    method UnlinkAfter(h: nat, ghost k: nat, prev: TrackNode)
      requires Linked() && h < HASH_SIZE && 0 < k < |chains[h]| && prev == chains[h][k - 1]
      modifies this`chains, prev`next
      ensures Linked() && trackHash == old(trackHash)
      ensures chains == old(chains)[h := old(chains)[h][..k] + old(chains)[h][k + 1..]]
    {
      ghost var c := chains[h];
      assert forall j :: 0 <= j < HASH_SIZE ==> Chained(j);
      NodeOccursOnce(h, k - 1);
      assert Chained(h);
      assert prev.next == c[k] && c[k].next == if k + 1 < |c| then c[k + 1] else null;
      label before:
      prev.next := prev.next.next;
      chains := chains[h := c[..k] + c[k + 1..]];
      forall j | 0 <= j < HASH_SIZE && j != h
        ensures Chained(j)
      {
        assert old@before(Chained(j));
        assert chains[j] == old(chains)[j];
        assert forall i :: 0 <= i < |chains[j]| ==> chains[j][i] != prev;
      }
      ShortenedHolds(c, h, k);
    }

    /** The chain that one node has been taken out of is linked. */
    lemma ShortenedHolds(c: seq<TrackNode>, h: nat, k: nat)
      requires |chains| == trackHash.Length == HASH_SIZE && h < HASH_SIZE
      requires 0 < k < |c| && chains[h] == c[..k] + c[k + 1..] && trackHash[h] == c[0]
      requires c[k - 1].next == if k + 1 < |c| then c[k + 1] else null
      requires forall i, j :: 0 <= i < j < |c| && j == i + 1 && i != k - 1 && i != k ==> c[i].next == c[j]
      requires k + 1 < |c| ==> c[|c| - 1].next == null
      requires forall i :: 0 <= i < |c| ==> c[i].data % HASH_SIZE == h && c[i].stamp < clock
      requires forall i, j :: 0 <= i < j < |c| ==> c[i].stamp > c[j].stamp
      ensures Chained(h)
    {
      Shortened(c, k, chains[h]);
    }

    /** Chain links after one node has been skipped. */
    lemma Shortened(c: seq<TrackNode>, k: nat, d: seq<TrackNode>)
      requires 0 < k < |c| && d == c[..k] + c[k + 1..]
      requires c[k - 1].next == if k + 1 < |c| then c[k + 1] else null
      requires forall i, j :: 0 <= i < j < |c| && j == i + 1 && i != k - 1 && i != k ==> c[i].next == c[j]
      requires k + 1 < |c| ==> c[|c| - 1].next == null
      ensures d[|d| - 1].next == null
      ensures forall i, j :: 0 <= i < j < |d| && j == i + 1 ==> d[i].next == d[j]
    {
      forall i, j | 0 <= i < j < |d| && j == i + 1
        ensures d[i].next == d[j]
      {
        if i < k - 1 {
          assert d[i] == c[i] && d[j] == c[j];
        } else if i == k - 1 {
          assert d[i] == c[k - 1] && d[j] == c[k + 1];
        } else {
          assert d[i] == c[i + 1] && d[j] == c[j + 1];
        }
      }
    }

    /** removeTrackNode: the latest node of the address leaves its chain, or nothing changes. */
    method RemoveTrackNode(address: nat) returns (toFree: TrackNode?)
      requires Valid()
      modifies this`allocatedBytes, this`chains, trackHash, Nodes()`next
      ensures Valid() && trackHash == old(trackHash) && Nodes() <= old(Nodes())
      ensures Table() == Untrack(old(Table()), address)
      ensures match Found(old(Table()), address)
              case None => toFree == null && chains == old(chains) && allocatedBytes == old(allocatedBytes)
              case Some(b) => toFree != null && toFree.Record() == b
    {
      var h := address % HASH_SIZE;
      assert Chained(h);
      ghost var c := chains[h];
      ghost var k := 0;
      if trackHash[h] == null {
        PositionIs(Recorded(c), address, 0);
        return null;
      }
      var temp: TrackNode? := null;
      if trackHash[h].data == address {
        toFree := trackHash[h];
      } else {
        temp := trackHash[h];
        k := 1;
        while temp.next != null && temp.next.data != address
          invariant 1 <= k <= |c| && temp == c[k - 1]
          invariant temp.next == if k < |c| then c[k] else null
          invariant forall j :: 0 <= j < k ==> c[j].data != address
          decreases |c| - k
        {
          temp := temp.next;
          k := k + 1;
        }
        if temp.next == null {
          PositionIs(Recorded(c), address, k);
          return null;
        }
        toFree := temp.next;
      }
      PositionIs(Recorded(c), address, k);
      ForgetNode(h, k, temp, toFree);
    }

    /** Unlinks the node that a removal has found and takes its size off the total. */
    method ForgetNode(h: nat, ghost k: nat, prev: TrackNode?, toFree: TrackNode)
      requires Valid() && h == toFree.data % HASH_SIZE && k < |chains[h]| && toFree == chains[h][k]
      requires prev == if k == 0 then null else chains[h][k - 1]
      requires Position(Table()[h], toFree.data) == k
      modifies this`allocatedBytes, this`chains, trackHash, Nodes()`next
      ensures Valid() && trackHash == old(trackHash) && Nodes() <= old(Nodes())
      ensures Table() == Untrack(old(Table()), toFree.data)
    {
      hide Chained, Tables, Space, Position;
      ghost var c := chains[h];
      SpaceAfterUntrack(Table(), toFree.data);
      TablesAfterUnlink(chains, h, k);
      SubtractModulo(Space(Table()), toFree.space);
      if prev == null {
        UnlinkHead(h);
        assert c[1..] == c[..0] + c[1..];
      } else {
        UnlinkAfter(h, k, prev);
      }
      allocatedBytes := (allocatedBytes - toFree.space) % ULONG;
    }

    /** report_space: the bytes not freed yet, as an `unsigned long`. */
    method ReportSpace() returns (r: nat)
      requires Valid()
      ensures r == Space(Table()) % ULONG
    {
      r := allocatedBytes;
    }

    lemma HasAllChains()
      requires Linked()
      ensures |Table()| == HASH_SIZE
    {
    }
  }

  // ---------------------------------------------------------------- memory

  /** A byte of the block's data or of one of its margins. */
  predicate Covers(b: Block, at: int) {
    b.data - b.margin <= at < b.data + b.space + b.margin
  }

  predicate InData(b: Block, at: int) {
    b.data <= at < b.data + b.space
  }

  /** Both margins still hold the pattern. */
  ghost predicate MarginsIntact(mem: seq<Byte>, b: Block) {
    && b.margin <= b.data && b.data + b.space + b.margin <= |mem|
    && forall at :: Covers(b, at) && !InData(b, at) ==> mem[at] == PATTERN
  }

  /** Tracked blocks lie in memory, have different addresses and do not overlap. */
  ghost predicate WellPlaced(t: Table, size: nat) {
    && DistinctAddresses(t)
    && (forall b :: Tracks(t, b) ==> b.margin <= b.data && b.data + b.space + b.margin <= size)
    && (forall b, c, at :: Tracks(t, b) && Tracks(t, c) && Covers(b, at) && Covers(c, at) ==> b == c)
  }

  /** Memory that no tracked block uses, as raw `malloc` returns it. */
  ghost predicate Unused(t: Table, from: nat, size: nat)
    requires |t| == HASH_SIZE
  {
    && (forall b, at :: Tracks(t, b) && Covers(b, at) ==> !(from <= at < from + size))
    && (forall b :: Tracks(t, b) ==> !(from <= b.data < from + size))
  }

  /** Bytes that `smartrealloc` copies: the smaller size, converted to a 32-bit `int`. */
  function CopyCount(oldSize: nat, newSize: nat): nat {
    var low := (if newSize < oldSize then newSize else oldSize) % 0x1_0000_0000;
    if low < 0x8000_0000 then low else 0
  }

  /** The copy is complete exactly when the smaller size is below 2 GiB. */
  lemma CopyIsComplete(oldSize: nat, newSize: nat)
    ensures var least := if newSize < oldSize then newSize else oldSize;
            CopyCount(oldSize, newSize) == least <==> least < 0x8000_0000
  {
  }

  /** Memory after `count` bytes from `from` have been set. */
  function Filled(mem: seq<Byte>, from: nat, count: nat, value: Byte): (r: seq<Byte>)
    ensures |r| == |mem|
  {
    seq(|mem|, at requires 0 <= at < |mem| => if from <= at < from + count then value else mem[at])
  }

  /** Memory after `count` bytes have been copied from `s` to `d`. */
  function Copied(mem: seq<Byte>, s: nat, d: nat, count: nat): (r: seq<Byte>)
    requires s + count <= |mem|
    ensures |r| == |mem|
  {
    seq(|mem|, at requires 0 <= at < |mem| => if d <= at < d + count then mem[s + (at - d)] else mem[at])
  }

  /** Memory after a block has been handed out: its data filled, its margins patterned. */
  function Allotted(mem: seq<Byte>, b: Block, fill: Byte): (r: seq<Byte>)
    requires b.margin <= b.data
    ensures |r| == |mem|
  {
    var filled := Filled(mem, b.data, b.space, fill);
    Filled(Filled(filled, b.data - b.margin, b.margin, PATTERN), b.data + b.space, b.margin, PATTERN)
  }

  /** Memory after the block `o` has been reallocated as `b`. */
  function Reallotted(mem: seq<Byte>, o: Block, b: Block, fill: Byte): (r: seq<Byte>)
    requires b.margin <= b.data && o.data + o.space <= |mem|
    ensures |r| == |mem|
  {
    CopyFits(o.space, b.space);
    Filled(Copied(Allotted(mem, b, fill), o.data, b.data, CopyCount(o.space, b.space)), o.data, o.space, PATTERN)
  }

  lemma CopyFits(oldSize: nat, newSize: nat)
    ensures CopyCount(oldSize, newSize) <= oldSize && CopyCount(oldSize, newSize) <= newSize
  {
  }

  /** A fresh block has its margins intact, its data filled, and leaves all other bytes alone. */
  lemma AllottedBytes(mem: seq<Byte>, b: Block, fill: Byte)
    requires b.margin <= b.data && b.data + b.space + b.margin <= |mem|
    ensures var r := Allotted(mem, b, fill);
            && MarginsIntact(r, b)
            && (forall at :: InData(b, at) ==> r[at] == fill)
            && (forall at :: 0 <= at < |mem| && !Covers(b, at) ==> r[at] == mem[at])
  {
  }

  /** A reallocated block starts with the old bytes, as many as were copied; the rest is filled, the
      margins are intact, the old data is overwritten with the pattern, and no other byte changes. */
  lemma ReallottedBytes(mem: seq<Byte>, o: Block, b: Block, fill: Byte)
    requires b.margin <= b.data && b.data + b.space + b.margin <= |mem|
    requires o.margin <= o.data && o.data + o.space + o.margin <= |mem|
    requires forall at :: !(Covers(o, at) && Covers(b, at))
    ensures var r, n := Reallotted(mem, o, b, fill), CopyCount(o.space, b.space);
            && n <= o.space && n <= b.space
            && MarginsIntact(r, b)
            && r[b.data..b.data + n] == mem[o.data..o.data + n]
            && (forall at :: b.data + n <= at < b.data + b.space ==> r[at] == fill)
            && (forall at :: InData(o, at) ==> r[at] == PATTERN)
            && (forall at :: 0 <= at < |mem| && !InData(o, at) && !Covers(b, at) ==> r[at] == mem[at])
  {
    CopyFits(o.space, b.space);
    AllottedBytes(mem, b, fill);
    CopiedOver(mem, Allotted(mem, b, fill), o, b, CopyCount(o.space, b.space));
  }

  lemma CopiedOver(mem: seq<Byte>, mid: seq<Byte>, o: Block, b: Block, n: nat)
    requires b.margin <= b.data && b.data + b.space + b.margin <= |mem| == |mid|
    requires o.margin <= o.data && o.data + o.space + o.margin <= |mem| && n <= o.space && n <= b.space
    requires forall at :: !(Covers(o, at) && Covers(b, at))
    requires forall at :: 0 <= at < |mem| && !Covers(b, at) ==> mid[at] == mem[at]
    requires MarginsIntact(mid, b)
    ensures var r := Filled(Copied(mid, o.data, b.data, n), o.data, o.space, PATTERN);
            && MarginsIntact(r, b)
            && r[b.data..b.data + n] == mem[o.data..o.data + n]
            && (forall at :: b.data + n <= at < b.data + b.space ==> r[at] == mid[at])
            && (forall at :: InData(o, at) ==> r[at] == PATTERN)
            && (forall at :: 0 <= at < |mem| && !InData(o, at) && !Covers(b, at) ==> r[at] == mem[at])
  {
    var r := Filled(Copied(mid, o.data, b.data, n), o.data, o.space, PATTERN);
    forall at | 0 <= at < |mem| && !InData(o, at) && !Covers(b, at)
      ensures r[at] == mem[at]
    {
    }
    forall at | b.data <= at < b.data + b.space
      ensures r[at] == if at < b.data + n then mem[o.data + (at - b.data)] else mid[at]
    {
      assert Covers(b, at);
      if at < b.data + n {
        assert Covers(o, o.data + (at - b.data));
      }
    }
    forall at | Covers(b, at) && !InData(b, at)
      ensures r[at] == PATTERN
    {
      assert !Covers(o, at) && mid[at] == PATTERN;
    }
    var moved, source := r[b.data..b.data + n], mem[o.data..o.data + n];
    forall i | 0 <= i < n
      ensures moved[i] == source[i]
    {
      assert moved[i] == r[b.data + i];
    }
  }

  datatype FreeReport = NotAllocated | Checked(pastBounds: bool)

  class Allocator {
    const table: TrackTable
    const memory: array<Byte>

    constructor (size: nat)
      ensures Valid() && fresh(table) && fresh(memory) && memory.Length == size
      ensures table.Table() == NoBlocks()
    {
      hide TrackTable.Linked, WellPlaced;
      NoBlocksPlaced(size);
      table := new TrackTable();
      memory := new Byte[size](i => 0);
    }

    ghost predicate Valid()
      reads table, table.trackHash, table.Nodes()`next
    {
      table.Valid() && WellPlaced(table.Table(), memory.Length) && memory as object != table.trackHash
    }

    /** `memset`. */
    method Fill(from: nat, count: nat, value: Byte)
      requires from + count <= memory.Length
      modifies memory
      ensures memory[..] == Filled(old(memory[..]), from, count, value)
    {
      var i := 0;
      while i < count
        invariant 0 <= i <= count
        invariant forall at :: 0 <= at < memory.Length
                    ==> memory[at] == if from <= at < from + i then value else old(memory[at])
      {
        memory[from + i] := value;
        i := i + 1;
      }
    }

    /** smartalloc: data filled, margins patterned, block tracked. `raw` is what `malloc` returned. */
    method Smartalloc(bytes: nat, fill: Byte, raw: nat) returns (data: nat)
      requires Valid() && raw + bytes + 2 * MARGIN <= memory.Length
      requires Unused(table.Table(), raw, bytes + 2 * MARGIN)
      modifies memory, table, table.trackHash
      ensures Valid() && data == raw + MARGIN && table.trackHash == old(table.trackHash)
      ensures fresh(table.Nodes() - old(table.Nodes()))
      ensures table.Table() == Track(old(table.Table()), Block(data, bytes, true, MARGIN))
      ensures memory[..] == Allotted(old(memory[..]), Block(data, bytes, true, MARGIN), fill)
    {
      hide TrackTable.Linked, WellPlaced, AllocTable.Track, Filled, Unused;
      data := raw + MARGIN;
      ghost var b := Block(data, bytes, true, MARGIN);
      PlacedAfterTrack(table.Table(), b, memory.Length);
      table.Track(Block(data, bytes, true, MARGIN));
      Fill(data, bytes, fill);
      Fill(data - MARGIN, MARGIN, PATTERN);
      Fill(data + bytes, MARGIN, PATTERN);
    }

    /** freechecks: reports a margin that does not hold the pattern, then overwrites the data. */
    method FreeChecks(check: TrackNode) returns (pastBounds: bool)
      requires check.margin <= check.data && check.data + check.space + check.margin <= memory.Length
      modifies memory
      ensures pastBounds <==> !MarginsIntact(old(memory[..]), check.Record())
      ensures memory[..] == Filled(old(memory[..]), check.data, check.space, PATTERN)
    {
      pastBounds := false;
      var i := 0;
      while i < check.margin
        invariant 0 <= i <= check.margin && !pastBounds
        invariant forall j :: check.data + check.space <= j < check.data + check.space + i ==> memory[j] == PATTERN
        invariant forall j :: check.data - check.margin <= j < check.data - check.margin + i ==> memory[j] == PATTERN
      {
        if memory[check.data + check.space + i] != PATTERN || memory[check.data - check.margin + i] != PATTERN {
          assert Covers(check.Record(), check.data + check.space + i)
                 && Covers(check.Record(), check.data - check.margin + i);
          pastBounds := true;
          break;
        }
        i := i + 1;
      }
      Fill(check.data, check.space, PATTERN);
    }

    /** smartfree: an unknown address is reported and nothing changes; otherwise the block is checked
        and leaves the table. */
    method SmartFree(address: nat) returns (report: FreeReport)
      requires Valid()
      modifies memory, table, table.trackHash, table.Nodes()`next
      ensures Valid() && table.trackHash == old(table.trackHash) && table.Nodes() <= old(table.Nodes())
      ensures table.Table() == Untrack(old(table.Table()), address)
      ensures var found := Found(old(table.Table()), address);
              if found.None? then report == NotAllocated && memory[..] == old(memory[..])
              else && report == Checked(!MarginsIntact(old(memory[..]), found.value))
                   && memory[..] == Filled(old(memory[..]), address, found.value.space, PATTERN)
    {
      hide TrackTable.Linked, WellPlaced, Untrack, Found, Filled, MarginsIntact;
      PlacedAfterUntrack(table.Table(), address, memory.Length);
      FoundIsPlaced(table.Table(), address, memory.Length);
      var toFree := table.RemoveTrackNode(address);
      if toFree == null {
        return NotAllocated;
      }
      var pastBounds := FreeChecks(toFree);
      report := Checked(pastBounds);
    }

    /** smartrealloc: the old block leaves the table, a new one is allocated, bytes are copied, and
        the old block is checked and freed. */
    method SmartRealloc(address: nat, newSize: nat, fill: Byte, raw: nat) returns (newMem: nat, report: FreeReport)
      requires Valid() && raw + newSize + 2 * MARGIN <= memory.Length
      requires Unused(table.Table(), raw, newSize + 2 * MARGIN)
      modifies memory, table, table.trackHash, table.Nodes()`next
      ensures Valid()
      ensures var b := Block(raw + MARGIN, newSize, true, MARGIN);
              var t, found := old(table.Table()), Found(old(table.Table()), address);
              if address == 0 then
                && newMem == b.data && table.Table() == Track(t, b)
                && memory[..] == Allotted(old(memory[..]), b, fill)
              else if found.None? then
                newMem == 0 && report == NotAllocated && table.Table() == t && memory[..] == old(memory[..])
              else
                && newMem == b.data && report == Checked(!MarginsIntact(old(memory[..]), found.value))
                && found.value.data + found.value.space <= memory.Length
                && table.Table() == Track(Untrack(t, address), b)
                && memory[..] == Reallotted(old(memory[..]), found.value, b, fill)
    {
      hide TrackTable.Linked, WellPlaced, Untrack, Found, Filled, Allotted, Copied, MarginsIntact, Reallotted,
           AllocTable.Track;
      if address == 0 {
        newMem := Smartalloc(newSize, fill, raw);
        return newMem, NotAllocated;
      }
      ghost var t := table.Table();
      table.HasAllChains();
      UntrackMiss(t, address);
      PlacedAfterUntrack(t, address, memory.Length);
      FoundIsPlaced(t, address, memory.Length);
      var toFree := table.RemoveTrackNode(address);
      if toFree == null {
        return 0, NotAllocated;
      }
      ghost var o := toFree.Record();
      NoOverlap(t, o, Block(raw + MARGIN, newSize, true, MARGIN), CopyCount(toFree.space, newSize));
      newMem, report := Replace(toFree, newSize, fill, raw);
    }

    /** The second half of smartrealloc, when the old block has left the table. */
    method Replace(toFree: TrackNode, newSize: nat, fill: Byte, raw: nat) returns (newMem: nat, report: FreeReport)
      requires Valid() && raw + newSize + 2 * MARGIN <= memory.Length
      requires Unused(table.Table(), raw, newSize + 2 * MARGIN)
      requires var o, b, n := toFree.Record(), Block(raw + MARGIN, newSize, true, MARGIN),
                                CopyCount(toFree.space, newSize);
               && o.margin <= o.data && o.data + o.space + o.margin <= memory.Length
               && (forall at :: !(Covers(o, at) && Covers(b, at)))
               && (o.data + n <= b.data || b.data + n <= o.data)
      modifies memory, table, table.trackHash
      ensures Valid() && newMem == raw + MARGIN
      ensures var o, b := toFree.Record(), Block(raw + MARGIN, newSize, true, MARGIN);
              && report == Checked(!MarginsIntact(old(memory[..]), o))
              && table.Table() == Track(old(table.Table()), b)
              && memory[..] == Reallotted(old(memory[..]), o, b, fill)
    {
      hide TrackTable.Linked, WellPlaced, Filled, Allotted, Copied, MarginsIntact, AllocTable.Track;
      ghost var o, b := toFree.Record(), Block(raw + MARGIN, newSize, true, MARGIN);
      CopyFits(toFree.space, newSize);
      newMem := Smartalloc(newSize, fill, raw);
      CopyBytes(toFree.data, newMem, CopyCount(toFree.space, newSize));
      SameMargins(old(memory[..]), memory[..], o, b, fill);
      var pastBounds := FreeChecks(toFree);
      report := Checked(pastBounds);
    }

    /** The byte-by-byte copy between two blocks that do not overlap. */
    method CopyBytes(s: nat, d: nat, limit: nat)
      requires s + limit <= memory.Length && d + limit <= memory.Length
      requires s + limit <= d || d + limit <= s
      modifies memory
      ensures memory[..] == Copied(old(memory[..]), s, d, limit)
    {
      var i := 0;
      while i < limit
        invariant 0 <= i <= limit
        invariant forall at :: 0 <= at < memory.Length
                    ==> memory[at] == if d <= at < d + i then old(memory[..])[s + (at - d)] else old(memory[at])
      {
        memory[d + i] := memory[s + i];
        i := i + 1;
      }
    }
  }

  lemma NoBlocksPlaced(size: nat)
    ensures WellPlaced(NoBlocks(), size)
  {
  }

  lemma PlacedAfterTrack(t: Table, b: Block, size: nat)
    requires WellPlaced(t, size) && b.margin > 0 && b.margin <= b.data && b.data + b.space + b.margin <= size
    requires Unused(t, b.data - b.margin, b.space + 2 * b.margin)
    ensures WellPlaced(Track(t, b), size)
  {
    TracksAfterTrack(t, b);
  }

  lemma PlacedAfterUntrack(t: Table, address: nat, size: nat)
    requires WellPlaced(t, size)
    ensures WellPlaced(Untrack(t, address), size)
    ensures forall from: nat, n: nat :: Unused(t, from, n) ==> Unused(Untrack(t, address), from, n)
  {
    TracksAfterUntrack(t, address);
  }

  lemma UntrackMiss(t: Table, address: nat)
    requires |t| == HASH_SIZE
    ensures Found(t, address).None? ==> Untrack(t, address) == t
  {
  }

  lemma FoundIsPlaced(t: Table, address: nat, size: nat)
    requires WellPlaced(t, size)
    ensures Found(t, address).Some? ==>
              var b := Found(t, address).value;
              Tracks(t, b) && b.data == address && b.margin <= b.data && b.data + b.space + b.margin <= size
  {
    FoundIsTracked(t, address);
  }

  /** A tracked block and a block in unused memory do not overlap. */
  lemma NoOverlap(t: Table, o: Block, b: Block, n: nat)
    requires |t| == HASH_SIZE && Tracks(t, o) && b.margin <= b.data && n <= o.space && n <= b.space
    requires Unused(t, b.data - b.margin, b.space + 2 * b.margin)
    ensures forall at :: !(Covers(o, at) && Covers(b, at))
    ensures o.data + n <= b.data || b.data + n <= o.data
  {
    var first := if o.data < b.data then b.data else o.data;
    assert Covers(o, first) <==> first < o.data + o.space + o.margin;
  }

  /** Neither handing out `b` nor copying into it touches the margins of `o`. */
  lemma SameMargins(mem: seq<Byte>, mem': seq<Byte>, o: Block, b: Block, fill: Byte)
    requires b.margin <= b.data && o.margin <= o.data && o.data + o.space + o.margin <= |mem|
    requires forall at :: !(Covers(o, at) && Covers(b, at))
    requires CopyCount(o.space, b.space) <= o.space
    requires mem' == Copied(Allotted(mem, b, fill), o.data, b.data, CopyCount(o.space, b.space))
    ensures MarginsIntact(mem', o) <==> MarginsIntact(mem, o)
  {
    CopyFits(o.space, b.space);
    forall at | Covers(o, at)
      ensures mem'[at] == mem[at]
    {
      assert !Covers(b, at);
    }
  }

  /** Allocating, freeing and reallocating leave every byte of every other live block alone. */
  lemma OthersUntouched(t: Table, mem: seq<Byte>, o: Block, b: Block, fill: Byte, c: Block)
    requires WellPlaced(t, |mem|) && Tracks(t, o) && Tracks(t, c) && c != o
    requires b.margin <= b.data && b.data + b.space + b.margin <= |mem|
    requires Unused(t, b.data - b.margin, b.space + 2 * b.margin)
    ensures forall at :: Covers(c, at) ==>
              && Allotted(mem, b, fill)[at] == mem[at]
              && Filled(mem, o.data, o.space, PATTERN)[at] == mem[at]
              && Reallotted(mem, o, b, fill)[at] == mem[at]
  {
    NoOverlap(t, o, b, 0);
    NoOverlap(t, c, b, 0);
    AllottedBytes(mem, b, fill);
    ReallottedBytes(mem, o, b, fill);
    forall at | Covers(c, at)
      ensures !Covers(o, at) && !Covers(b, at)
    {
    }
  }

  /** Of the stores a client makes, exactly those that leave a margin byte changed are reported when
      the block is freed: a block filled by `smartalloc` and then written by `mem'`. */
  lemma OverrunsAreReported(mem: seq<Byte>, mem': seq<Byte>, b: Block, fill: Byte)
    requires b.margin <= b.data && b.data + b.space + b.margin <= |mem| == |mem'|
    ensures MarginsIntact(mem', b)
       <==> forall at :: Covers(b, at) && !InData(b, at) ==> mem'[at] == Allotted(mem, b, fill)[at]
  {
    AllottedBytes(mem, b, fill);
    assert MarginsIntact(Allotted(mem, b, fill), b);
  }
}
