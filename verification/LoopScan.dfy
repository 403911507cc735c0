/** What the outer scan of controller.c finds out about the whole network. */
module LoopScan {
  import opened Topology
  import opened LoopSearch

  ghost predicate NeighbourClosed(g: Graph, s: seq<int>) {
    forall x, u :: x in s && Linked(g, x, u) ==> u in s
  }

  ghost predicate SilentBefore(g: Graph, n: nat)
    requires Closed(g) && n <= |g.order|
  {
    forall i :: 0 <= i < n ==> !Reports(g, i)
  }

  /** As long as no search reports, the discovered devices are whole components without cycles. */
  lemma {:induction false} SilentScanSlots(g: Graph, n: nat)
    requires Simple(g) && n <= |g.order| && SilentBefore(g, n)
    ensures var o := ScanSlots(g, n);
            && o.report == 0 && Distinct(o.seen) && NeighbourClosed(g, o.seen)
            && forall i :: 0 <= i < |o.seen| ==> OneEarlier(g, o.seen, i)
  {
    if n > 0 {
      SilentScanSlots(g, n - 1);
      assert !Reports(g, n - 1);
      var base, root := ScanSlots(g, n - 1).seen, g.order[n - 1];
      if root !in base {
        SilentSearchAddsTree(g, base, root);
        TreeOnClosedBase(g, base, Search(g, base, root).seen, root);
      }
    }
  }

  lemma TreeOnClosedBase(g: Graph, base: seq<int>, s: seq<int>, root: int)
    requires Simple(g) && TreeAdded(g, base, s, root) && NeighbourClosed(g, base) && root !in base
    requires forall i :: 0 <= i < |base| ==> OneEarlier(g, base, i)
    ensures NeighbourClosed(g, s) && forall i :: 0 <= i < |s| ==> OneEarlier(g, s, i)
  {
    assert forall i :: 0 <= i < |base| ==> s[i] == base[i];
    assert forall x :: x in base && Linked(g, x, root) ==> root in base;
    assert forall x :: x in base ==> !Linked(g, root, x);
    forall x, u | x in s && Linked(g, x, u)
      ensures u in s
    {
      var i :| 0 <= i < |s| && s[i] == x;
      if i < |base| {
        assert u in base;
        var j :| 0 <= j < |base| && base[j] == u;
        assert s[j] == u;
      }
    }
    forall i | 0 <= i < |s|
      ensures OneEarlier(g, s, i)
    {
      if i < |base| {
        assert OneEarlier(g, base, i);
      } else if i == |base| {
        assert forall j :: 0 <= j < i ==> s[j] in base;
      }
    }
  }

  /** The first search that reports names the device at which a path from its root enters a simple cycle, and there
      is such a search at a root exactly when the component of the root has a cycle. */
  lemma FirstReport(g: Graph, i: nat)
    requires Simple(g) && i < |g.order| && SilentBefore(g, i) && Starts(g, i)
    ensures var base, root := ScanSlots(g, i).seen, g.order[i];
            && (Reports(g, i) <==> exists c :: IsCycle(g, c) && forall x :: x in c ==> Connected(g, root, x))
            && (Reports(g, i) ==> exists c :: IsCycle(g, c) && Entrance(g, c, root, Search(g, base, root).report))
  {
    var base, root := ScanSlots(g, i).seen, g.order[i];
    SilentScanSlots(g, i);
    ReportIsEvidence(g, base, root);
    SearchExactly(g, base, root);
    RegionIsComponent(g, base, root);
    hide Search, ScanSlots, Connected, Reaches, Simple, Distinct, OneEarlier, Entrance;
  }

  /** Behind whole components, a search meets no device that was discovered before, and its region is the component
      of its root. */
  lemma RegionIsComponent(g: Graph, base: seq<int>, root: int)
    requires Simple(g) && NeighbourClosed(g, base) && root !in base
    ensures forall x :: Reaches(g, base, root, x) <==> Connected(g, root, x)
    ensures forall x, u :: x !in base && Linked(g, x, u) ==> u !in base
    ensures !RegionTouches(g, base, root)
  {
    forall x, u | x !in base && Linked(g, x, u)
      ensures u !in base
    {
      assert Linked(g, u, x);
    }
    forall x
      ensures Reaches(g, base, root, x) ==> Connected(g, root, x) && x !in base
      ensures Connected(g, root, x) ==> Reaches(g, base, root, x)
    {
      if Reaches(g, base, root, x) {
        JoinedStarts(g, Beyond(base), root, x);
      }
      if Connected(g, root, x) {
        var p :| IsPath(g, p) && p[0] == root && p[|p| - 1] == x;
        PathAvoidsClosed(g, base, p);
      }
    }
  }

  lemma {:induction false} PathAvoidsClosed(g: Graph, base: seq<int>, p: seq<int>)
    requires Simple(g) && NeighbourClosed(g, base) && IsPath(g, p) && p[0] !in base
    ensures forall x :: x in p ==> x !in base
  {
    var n := |p| - 1;
    if n > 0 {
      forall i | 0 <= i < n - 1
        ensures Linked(g, p[..n][i], p[..n][i + 1])
      {
        assert Linked(g, p[i], p[i + 1]);
      }
      PathAvoidsClosed(g, base, p[..n]);
      assert Linked(g, p[n - 1], p[n - 1 + 1]);
      assert p[n - 1] in p[..n];
      assert Linked(g, p[n], p[n - 1]);
      assert p == p[..n] + [p[n]];
    }
  }

  /** Some search of the scan reports exactly when the network has a loop. */
  lemma ScanFindsLoop(g: Graph)
    requires Simple(g)
    ensures (exists i :: 0 <= i < |g.order| && Reports(g, i)) <==> HasCycle(g)
  {
    var n := |g.order|;
    if SilentBefore(g, n) {
      SilentScanSlots(g, n);
      ScanSlotsDistinct(g, n);
      var s := ScanSlots(g, n).seen;
      forall c
        ensures !IsCycle(g, c)
      {
        if IsCycle(g, c) {
          forall x | x in c
            ensures x in s
          {
            CycleStaysInGraph(g, c, x);
          }
          var i := TwoEarlier(g, s, c);
        }
      }
    } else {
      var i := LeastReport(g, n);
      FirstReport(g, i);
    }
  }

  lemma CycleStaysInGraph(g: Graph, c: seq<int>, x: int)
    requires IsCycle(g, c) && x in c
    ensures x in g.adj
  {
    var i :| 0 <= i < |c| && c[i] == x;
    if i < |c| - 1 {
      assert Linked(g, c[i], c[i + 1]);
    }
  }

  lemma {:induction false} LeastReport(g: Graph, n: nat) returns (i: nat)
    requires Closed(g) && n <= |g.order| && !SilentBefore(g, n)
    ensures i < n && Reports(g, i) && SilentBefore(g, i)
  {
    hide Closed, Reports;
    if SilentBefore(g, n - 1) {
      i := n - 1;
    } else {
      i := LeastReport(g, n - 1);
    }
  }

  /** A nonzero result means that the network has a loop. */
  lemma LoopExistsIsSound(g: Graph)
    requires Simple(g)
    ensures LoopExists(g) != 0 ==> HasCycle(g)
  {
    if SilentBefore(g, |g.order|) {
      SilentScanSlots(g, |g.order|);
    }
    ScanFindsLoop(g);
  }

  /** Slot `i` starts a search at a device with neighbours: only such a search sets the result. */
  predicate StartsAmongNeighbours(g: Graph, i: nat)
    requires Closed(g) && i < |g.order|
  {
    var root := g.order[i];
    assert root in g.order;
    Starts(g, i) && g.adj[root] != []
  }

  /** The last such slot of the first `n`, or -1. */
  function LastStart(g: Graph, n: nat): (r: int)
    requires Closed(g) && n <= |g.order|
    ensures -1 <= r < n
    ensures r >= 0 ==> StartsAmongNeighbours(g, r)
    ensures forall j :: r < j < n ==> !StartsAmongNeighbours(g, j)
  {
    if n == 0 then -1
    else if StartsAmongNeighbours(g, n - 1) then n - 1
    else LastStart(g, n - 1)
  }

  lemma {:induction false} LastStartDecides(g: Graph, n: nat)
    requires Closed(g) && n <= |g.order|
    ensures var r := LastStart(g, n);
            ScanSlots(g, n).report == if r < 0 then 0 else Search(g, ScanSlots(g, r).seen, g.order[r]).report
  {
    hide Search;
    if n > 0 {
      LastStartDecides(g, n - 1);
    }
  }

  /** Exactly when the result is nonzero: the last search started at a device with neighbours
      reports, that is, its region has a cycle or touches what earlier searches left behind. */
  lemma LoopExistsExactly(g: Graph)
    requires Simple(g)
    ensures var r := LastStart(g, |g.order|);
            LoopExists(g) != 0
            <==> (r >= 0 && (RegionHasCycle(g, ScanSlots(g, r).seen, g.order[r])
                             || RegionTouches(g, ScanSlots(g, r).seen, g.order[r])))
  {
    LastStartDecides(g, |g.order|);
    var r := LastStart(g, |g.order|);
    if r >= 0 {
      ScanSlotsDistinct(g, r);
      SearchExactly(g, ScanSlots(g, r).seen, g.order[r]);
    }
  }

  /** Where a nonzero result lies, when `base` is what earlier searches than the last decisive one had
      discovered: outside `base` it is a device on a cycle of devices outside `base`, and in `base` no
      such cycle contains it. If no search reported before that one, the result lies on a cycle. */
  lemma ReturnedDevice(g: Graph)
    requires Simple(g) && LoopExists(g) != 0
    ensures LastStart(g, |g.order|) >= 0
    ensures var base := ScanSlots(g, LastStart(g, |g.order|)).seen;
            (exists c :: IsCycle(g, c) && LoopExists(g) in c && forall x :: x in c ==> x !in base)
            <==> LoopExists(g) !in base
    ensures SilentBefore(g, LastStart(g, |g.order|)) ==> exists c :: IsCycle(g, c) && LoopExists(g) in c
  {
    LastStartDecides(g, |g.order|);
    var r := LastStart(g, |g.order|);
    var base, root := ScanSlots(g, r).seen, g.order[r];
    ScanSlotsDistinct(g, r);
    ReportIsEvidence(g, base, root);
    if SilentBefore(g, r) {
      FirstReport(g, r);
    }
  }

  /** A new link in a loop-free network: some search reports exactly when the two devices were
      already connected, and otherwise the result is 0. */
  lemma NewLinkIsReported(g: Graph, dest: int, src: int)
    requires Simple(g) && !HasCycle(g)
    requires dest in g.adj && src in g.adj && dest != src && !Linked(g, dest, src)
    ensures var g' := AddLink(g, dest, src);
            && Simple(g')
            && (HasCycle(g') <==> Connected(g, dest, src))
            && ((exists i :: 0 <= i < |g'.order| && Reports(g', i)) <==> Connected(g, dest, src))
            && (!Connected(g, dest, src) ==> LoopExists(g') == 0)
  {
    var g' := AddLink(g, dest, src);
    AddLinkKeepsSimple(g, dest, src);
    LinkClosesCycle(g, dest, src);
    ScanFindsLoop(g');
    LoopExistsIsSound(g');
  }

  // ---------------------------------------------------------------- what the result can miss

  /** The devices 1-2-3 and 4-5 before the link between 3 and 1 is reported. */
  const BEFORE_LINK := Graph([1, 2, 3, 4, 5], map[1 := [2], 2 := [1, 3], 3 := [2], 4 := [5], 5 := [4]])

  /** The runs that lead to the two networks below: the joins, then the links. */
  function Joins(fds: seq<int>): seq<Event> {
    seq(|fds|, i requires 0 <= i < |fds| => Join(fds[i]))
  }

  function Isolated(fds: seq<int>): Graph {
    Graph(fds, map fd | fd in fds :: [])
  }

  lemma {:induction false} JoinsLead(fds: seq<int>)
    requires Distinct(fds) && forall fd :: fd in fds ==> 0 < fd < 0x100
    ensures Leads(Joins(fds), Isolated(fds))
  {
    if fds == [] {
      assert Isolated(fds) == NO_DEVICES;
    } else {
      hide Leads, Distinct;
      var n := |fds| - 1;
      LastIsNew(fds);
      JoinsLead(fds[..n]);
      LeadsOn(Joins(fds[..n]), Isolated(fds[..n]), Join(fds[n]));
      assert Joins(fds) == Joins(fds[..n]) + [Join(fds[n])];
    }
  }

  lemma LastIsNew(fds: seq<int>)
    requires fds != [] && Distinct(fds) && forall fd :: fd in fds ==> 0 < fd < 0x100
    ensures var front, last := fds[..|fds| - 1], fds[|fds| - 1];
            && Distinct(front) && (forall fd :: fd in front ==> 0 < fd < 0x100)
            && Admissible(Isolated(front), Join(last)) && Apply(Isolated(front), Join(last)) == Isolated(fds)
  {
    var front, last := fds[..|fds| - 1], fds[|fds| - 1];
    assert last in fds && fds == front + [last];
    forall fd | fd in front
      ensures fd in fds && fd != last
    {
      var i :| 0 <= i < |front| && front[i] == fd;
      assert fds[i] == fd;
    }
    assert Isolated(front).adj[last := []] == Isolated(fds).adj;
  }

  /** The list of device `m` when `rows` holds those of the devices 1, 2, and so on. */
  function Row(rows: seq<seq<int>>, m: int): seq<int>
    requires 1 <= m <= |rows|
  {
    rows[m - 1]
  }

  function Listed(order: seq<int>, rows: seq<seq<int>>): Graph {
    Graph(order, map m: int | 1 <= m <= |rows| :: Row(rows, m))
  }

  /** The rows before and after a link between devices that are in neither list. */
  predicate RowsLinked(rows: seq<seq<int>>, after: seq<seq<int>>, dest: int, src: int) {
    && 1 <= dest <= |rows| == |after| && 1 <= src <= |rows| && dest != src
    && dest !in Row(rows, dest) + Row(rows, src) && src !in Row(rows, dest) + Row(rows, src)
    && Row(after, dest) == Row(rows, dest) + [src] && Row(after, src) == Row(rows, src) + [dest]
    && forall m :: 1 <= m <= |rows| && m != dest && m != src ==> Row(after, m) == Row(rows, m)
  }

  /** The link extends the run and two of the rows. */
  lemma LeadsOnListed(events: seq<Event>, order: seq<int>, rows: seq<seq<int>>, dest: int, src: int,
                      after: seq<seq<int>>)
    requires Leads(events, Listed(order, rows)) && RowsLinked(rows, after, dest, src)
    ensures Leads(events + [Link(dest, src)], Listed(order, after))
  {
    assert AddLink(Listed(order, rows), dest, src).adj == Listed(order, after).adj;
    hide Leads, AddLink;
    LeadsOn(events, Listed(order, rows), Link(dest, src));
  }

  /** The devices 1 to `n` have joined, in whatever order. */
  lemma NoLinksYet(fds: seq<int>, rows: seq<seq<int>>)
    requires Distinct(fds) && forall fd :: fd in fds <==> 1 <= fd <= |rows|
    requires |rows| < 0x100 && forall i :: 0 <= i < |rows| ==> rows[i] == []
    ensures Leads(Joins(fds), Listed(fds, rows))
  {
    JoinsLead(fds);
    assert Isolated(fds).adj == Listed(fds, rows).adj;
  }

  /** A list per device determines the adjacency. */
  lemma SameRows(adj: map<int, seq<int>>, rows: seq<seq<int>>)
    requires forall m :: m in adj.Keys <==> 1 <= m <= |rows|
    requires forall m :: m in adj.Keys ==> adj[m] == Row(rows, m)
    ensures forall order: seq<int> :: Graph(order, adj) == Listed(order, rows)
  {
    forall order: seq<int>
      ensures Graph(order, adj) == Listed(order, rows)
    {
      assert adj == Listed(order, rows).adj;
    }
  }

  lemma BeforeLinkIsListed()
    ensures BEFORE_LINK == Listed([1, 2, 3, 4, 5], [[2], [1, 3], [2], [5], [4]])
  {
    SameRows(BEFORE_LINK.adj, [[2], [1, 3], [2], [5], [4]]);
  }

  lemma BranchedIsListed()
    ensures BRANCHED == Listed([1, 2, 3, 4, 6, 5], [[2, 5], [1, 3, 4], [2, 4], [3, 2], [1, 6], [5]])
  {
    SameRows(BRANCHED.adj, [[2, 5], [1, 3, 4], [2, 4], [3, 2], [1, 6], [5]]);
  }

  /** Five switches join, and the links 1-2-3 and 4-5 are reported. */
  lemma BeforeLinkIsReached()
    ensures Leads(Joins([1, 2, 3, 4, 5]) + [Link(1, 2)] + [Link(2, 3)] + [Link(4, 5)], BEFORE_LINK)
    ensures Admissible(BEFORE_LINK, Link(3, 1))
  {
    hide Leads, Joins, Listed;
    BeforeLinkIsListed();
    var fds := [1, 2, 3, 4, 5];
    var e0 := Joins(fds);
    NoLinksYet(fds, [[], [], [], [], []]);
    LeadsOnListed(e0, fds, [[], [], [], [], []], 1, 2, [[2], [1], [], [], []]);
    var e1 := e0 + [Link(1, 2)];
    PairReached(fds, e1);
  }

  lemma PairReached(fds: seq<int>, events: seq<Event>)
    requires Leads(events, Listed(fds, [[2], [1], [], [], []]))
    ensures Leads(events + [Link(2, 3)] + [Link(4, 5)], Listed(fds, [[2], [1, 3], [2], [5], [4]]))
  {
    hide Leads, Listed;
    LeadsOnListed(events, fds, [[2], [1], [], [], []], 2, 3, [[2], [1, 3], [2], [], []]);
    LeadsOnListed(events + [Link(2, 3)], fds, [[2], [1, 3], [2], [], []], 4, 5, [[2], [1, 3], [2], [5], [4]]);
  }

  /** The link closes a loop and the search at device 1 reports it, but the search at device 4 then
      overwrites the result with 0. */
  lemma OverwrittenReport()
    ensures var g, g' := BEFORE_LINK, AddLink(BEFORE_LINK, 3, 1);
            && Simple(g) && !HasCycle(g) && Simple(g') && HasCycle(g')
            && Reports(g', 0) && LoopExists(g') == 0
  {
    var g, g' := BEFORE_LINK, AddLink(BEFORE_LINK, 3, 1);
    BeforeLinkIsSimple();
    AddLinkKeepsSimple(g, 3, 1);
    ChainIsSilent();
    TriangleIsOverwritten();
    hide Simple, Reports, LoopExists, AddLink;
    ScanFindsLoop(g);
    ScanFindsLoop(g');
  }

  lemma ChainIsSilent()
    requires Simple(BEFORE_LINK)
    ensures |BEFORE_LINK.order| == 5 && forall i :: 0 <= i < 5 ==> !Reports(BEFORE_LINK, i)
  {
    HeadChain(BEFORE_LINK);
    TailPair(BEFORE_LINK);
    FiveSlots(BEFORE_LINK, 0);
  }

  lemma TriangleIsOverwritten()
    requires Simple(AddLink(BEFORE_LINK, 3, 1))
    ensures |AddLink(BEFORE_LINK, 3, 1).order| == 5
    ensures Reports(AddLink(BEFORE_LINK, 3, 1), 0) && LoopExists(AddLink(BEFORE_LINK, 3, 1)) == 0
  {
    var g := AddLink(BEFORE_LINK, 3, 1);
    HeadTriangle(g);
    TailPair(g);
    FiveSlots(g, 1);
  }

  lemma BeforeLinkIsSimple()
    ensures Simple(BEFORE_LINK)
  {
    var g := BEFORE_LINK;
    assert g.adj.Keys == {1, 2, 3, 4, 5};
    assert g.adj[1] == [2] && g.adj[2] == [1, 3] && g.adj[3] == [2] && g.adj[4] == [5] && g.adj[5] == [4];
    FiveInALine(g);
  }

  lemma FiveInALine(g: Graph)
    requires g.order == [1, 2, 3, 4, 5] && g.adj.Keys == {1, 2, 3, 4, 5}
    requires g.adj[1] == [2] && g.adj[2] == [1, 3] && g.adj[3] == [2] && g.adj[4] == [5] && g.adj[5] == [4]
    ensures Simple(g)
  {
    forall v | v in g.adj
      ensures v in g.order && Distinct(g.adj[v])
    {
      assert v == 1 || v == 2 || v == 3 || v == 4 || v == 5;
    }
    forall u, v | Linked(g, u, v)
      ensures u != v && Linked(g, v, u)
    {
      assert u == 1 || u == 2 || u == 3 || u == 4 || u == 5;
    }
    forall v, u | v in g.adj && u in g.adj[v]
      ensures u in g.adj
    {
      assert Linked(g, v, u) && Linked(g, u, v);
    }
  }

  lemma HeadChain(g: Graph)
    requires Closed(g) && {1, 2, 3} <= g.adj.Keys && g.adj[1] == [2] && g.adj[2] == [1, 3] && g.adj[3] == [2]
    ensures Search(g, [], 1) == Outcome(0, [1, 2, 3])
  {
    assert [] + [1] == [1] && [1] + [2] == [1, 2] && [1, 2] + [3] == [1, 2, 3];
    assert Scan(g, [1, 2, 3], 3, 2, 0) == Outcome(0, [1, 2, 3]);
    assert Visit(g, [1, 2], 3, 2) == Outcome(0, [1, 2, 3]);
    assert Scan(g, [1, 2, 3], 2, 1, 2) == Outcome(0, [1, 2, 3]);
    assert Scan(g, [1, 2], 2, 1, 1) == Outcome(0, [1, 2, 3]);
    assert Scan(g, [1, 2], 2, 1, 0) == Outcome(0, [1, 2, 3]);
    assert Visit(g, [1], 2, 1) == Outcome(0, [1, 2, 3]);
    assert FromRoot(g, [1, 2, 3], 1, 1) == Outcome(0, [1, 2, 3]);
  }

  lemma HeadTriangle(g: Graph)
    requires Closed(g) && {1, 2, 3} <= g.adj.Keys && g.adj[1] == [2, 3] && g.adj[2] == [1, 3] && g.adj[3] == [2, 1]
    ensures Search(g, [], 1) == Outcome(1, [1, 2, 3])
  {
    assert [] + [1] == [1] && [1] + [2] == [1, 2] && [1, 2] + [3] == [1, 2, 3];
    assert Scan(g, [1, 2, 3], 3, 2, 1) == Outcome(1, [1, 2, 3]);
    assert Scan(g, [1, 2, 3], 3, 2, 0) == Outcome(1, [1, 2, 3]);
    assert Visit(g, [1, 2], 3, 2) == Outcome(1, [1, 2, 3]);
    assert Scan(g, [1, 2], 2, 1, 1) == Outcome(1, [1, 2, 3]);
    assert Scan(g, [1, 2], 2, 1, 0) == Outcome(1, [1, 2, 3]);
    assert Visit(g, [1], 2, 1) == Outcome(1, [1, 2, 3]);
  }

  lemma TailPair(g: Graph)
    requires Closed(g) && {4, 5} <= g.adj.Keys && g.adj[4] == [5] && g.adj[5] == [4]
    ensures Search(g, [1, 2, 3], 4) == Outcome(0, [1, 2, 3, 4, 5])
  {
    assert [1, 2, 3] + [4] == [1, 2, 3, 4] && [1, 2, 3, 4] + [5] == [1, 2, 3, 4, 5];
    assert Scan(g, [1, 2, 3, 4, 5], 5, 4, 0) == Outcome(0, [1, 2, 3, 4, 5]);
    assert Visit(g, [1, 2, 3, 4], 5, 4) == Outcome(0, [1, 2, 3, 4, 5]);
    assert FromRoot(g, [1, 2, 3, 4, 5], 4, 1) == Outcome(0, [1, 2, 3, 4, 5]);
    assert FromRoot(g, [1, 2, 3, 4], 4, 0) == Outcome(0, [1, 2, 3, 4, 5]);
  }

  lemma FiveSlots(g: Graph, report: int)
    requires Closed(g) && g.order == [1, 2, 3, 4, 5] && g.adj[1] != [] && g.adj[4] != []
    requires Search(g, [], 1) == Outcome(report, [1, 2, 3]) && Search(g, [1, 2, 3], 4) == Outcome(0, [1, 2, 3, 4, 5])
    ensures LoopExists(g) == 0
    ensures forall i :: 0 <= i < 5 ==> (Reports(g, i) <==> i == 0 && report != 0)
  {
    assert ScanSlots(g, 0) == Outcome(0, []);
    assert ScanSlots(g, 1) == Outcome(report, [1, 2, 3]);
    assert ScanSlots(g, 2) == Outcome(report, [1, 2, 3]);
    assert ScanSlots(g, 3) == Outcome(report, [1, 2, 3]);
    assert ScanSlots(g, 4) == Outcome(0, [1, 2, 3, 4, 5]);
    assert ScanSlots(g, 5) == Outcome(0, [1, 2, 3, 4, 5]);
  }

  /** The triangle 2-3-4 with the branch 2-1-5-6, where device 6 was connected before device 5. */
  const BRANCHED := Graph([1, 2, 3, 4, 6, 5],
                          map[1 := [2, 5], 2 := [1, 3, 4], 3 := [2, 4], 4 := [3, 2], 5 := [1, 6], 6 := [5]])

  /** Six switches join, and the links 1-2-3-4-2, 1-5 and 5-6 are reported. */
  lemma BranchedIsReached()
    ensures Leads(Joins([1, 2, 3, 4, 6, 5]) + [Link(1, 2)] + [Link(2, 3)] + [Link(3, 4)]
                  + [Link(4, 2)] + [Link(1, 5)] + [Link(5, 6)], BRANCHED)
  {
    hide Leads, Joins, Listed;
    var fds := [1, 2, 3, 4, 6, 5];
    var e0 := Joins(fds);
    NoLinksYet(fds, [[], [], [], [], [], []]);
    var e1 := e0 + [Link(1, 2)];
    ChainReached(fds, e0);
    TriangleReached(fds, e1 + [Link(2, 3)]);
    BranchesReached(fds, e1 + [Link(2, 3)] + [Link(3, 4)] + [Link(4, 2)]);
  }

  lemma ChainReached(fds: seq<int>, events: seq<Event>)
    requires Leads(events, Listed(fds, [[], [], [], [], [], []]))
    ensures Leads(events + [Link(1, 2)] + [Link(2, 3)], Listed(fds, [[2], [1, 3], [2], [], [], []]))
  {
    hide Leads, Listed;
    LeadsOnListed(events, fds, [[], [], [], [], [], []], 1, 2, [[2], [1], [], [], [], []]);
    LeadsOnListed(events + [Link(1, 2)], fds, [[2], [1], [], [], [], []], 2, 3, [[2], [1, 3], [2], [], [], []]);
  }

  lemma TriangleReached(fds: seq<int>, events: seq<Event>)
    requires Leads(events, Listed(fds, [[2], [1, 3], [2], [], [], []]))
    ensures Leads(events + [Link(3, 4)] + [Link(4, 2)], Listed(fds, [[2], [1, 3, 4], [2, 4], [3, 2], [], []]))
  {
    hide Leads, Listed;
    var path: seq<seq<int>> := [[2], [1, 3], [2, 4], [3], [], []];
    LeadsOnListed(events, fds, [[2], [1, 3], [2], [], [], []], 3, 4, path);
    LeadsOnListed(events + [Link(3, 4)], fds, path, 4, 2, [[2], [1, 3, 4], [2, 4], [3, 2], [], []]);
  }

  lemma BranchesReached(fds: seq<int>, events: seq<Event>)
    requires fds == [1, 2, 3, 4, 6, 5] && Leads(events, Listed(fds, [[2], [1, 3, 4], [2, 4], [3, 2], [], []]))
    ensures Leads(events + [Link(1, 5)] + [Link(5, 6)], BRANCHED)
  {
    hide Leads, Listed;
    BranchedIsListed();
    LeadsOnListed(events, fds, [[2], [1, 3, 4], [2, 4], [3, 2], [], []], 1, 5,
                  [[2, 5], [1, 3, 4], [2, 4], [3, 2], [1], []]);
    LeadsOnListed(events + [Link(1, 5)], fds, [[2, 5], [1, 3, 4], [2, 4], [3, 2], [1], []], 5, 6,
                  [[2, 5], [1, 3, 4], [2, 4], [3, 2], [1, 6], [5]]);
  }

  /** The result can name a device that lies on no loop: the search at device 6 meets device 1,
      which the search that found the loop had left behind. */
  lemma ReportOffTheLoop()
    ensures Simple(BRANCHED) && HasCycle(BRANCHED) && LoopExists(BRANCHED) == 1
    ensures forall c :: IsCycle(BRANCHED, c) ==> 1 !in c
  {
    BranchedLists();
    BranchedIsSimple(BRANCHED);
    BranchedSearches(BRANCHED);
    SixSlots(BRANCHED);
    LoopExistsIsSound(BRANCHED);
    DeadEndBranch(BRANCHED);
  }

  ghost predicate HasBranchedLists(g: Graph) {
    && g.order == [1, 2, 3, 4, 6, 5] && g.adj.Keys == {1, 2, 3, 4, 5, 6}
    && g.adj[1] == [2, 5] && g.adj[2] == [1, 3, 4] && g.adj[3] == [2, 4]
    && g.adj[4] == [3, 2] && g.adj[5] == [1, 6] && g.adj[6] == [5]
  }

  lemma BranchedLists()
    ensures HasBranchedLists(BRANCHED)
  {
  }

  lemma BranchedIsSimple(g: Graph)
    requires HasBranchedLists(g)
    ensures Simple(g)
  {
    forall v | v in g.adj
      ensures v in g.order && Distinct(g.adj[v])
    {
      assert v == 1 || v == 2 || v == 3 || v == 4 || v == 5 || v == 6;
    }
    forall u, v | Linked(g, u, v)
      ensures u != v && Linked(g, v, u)
    {
      assert u == 1 || u == 2 || u == 3 || u == 4 || u == 5 || u == 6;
    }
    forall v, u | v in g.adj && u in g.adj[v]
      ensures u in g.adj
    {
      assert Linked(g, v, u) && Linked(g, u, v);
    }
  }

  lemma SixSlots(g: Graph)
    requires Closed(g) && g.order == [1, 2, 3, 4, 6, 5] && g.adj[1] != [] && g.adj[6] != []
    requires Search(g, [], 1) == Outcome(2, [1, 2, 3, 4])
    requires Search(g, [1, 2, 3, 4], 6) == Outcome(1, [1, 2, 3, 4, 6, 5])
    ensures LoopExists(g) == 1
  {
    assert ScanSlots(g, 0) == Outcome(0, []);
    assert ScanSlots(g, 1) == Outcome(2, [1, 2, 3, 4]);
    assert ScanSlots(g, 2) == Outcome(2, [1, 2, 3, 4]);
    assert ScanSlots(g, 3) == Outcome(2, [1, 2, 3, 4]);
    assert ScanSlots(g, 4) == Outcome(2, [1, 2, 3, 4]);
    assert ScanSlots(g, 5) == Outcome(1, [1, 2, 3, 4, 6, 5]);
  }

  lemma DeadEndBranch(g: Graph)
    requires Simple(g) && {1, 5, 6} <= g.adj.Keys && g.adj[1] == [2, 5] && g.adj[5] == [1, 6] && g.adj[6] == [5]
    ensures forall c :: IsCycle(g, c) ==> 1 !in c
  {
    forall c | IsCycle(g, c)
      ensures 1 !in c
    {
      if 6 in c {
        var u, w := CycleNeighbours(g, c, 6);
      }
      if 5 in c {
        var u, w := CycleNeighbours(g, c, 5);
      }
      if 1 in c {
        var u, w := CycleNeighbours(g, c, 1);
      }
    }
  }

  lemma BranchedSearches(g: Graph)
    requires Closed(g) && HasBranchedLists(g)
    ensures Search(g, [], 1) == Outcome(2, [1, 2, 3, 4])
    ensures Search(g, [1, 2, 3, 4], 6) == Outcome(1, [1, 2, 3, 4, 6, 5])
  {
    assert [] + [1] == [1] && [1] + [2] == [1, 2] && [1, 2] + [3] == [1, 2, 3] && [1, 2, 3] + [4] == [1, 2, 3, 4];
    assert [1, 2, 3, 4] + [6] == [1, 2, 3, 4, 6] && [1, 2, 3, 4, 6] + [5] == [1, 2, 3, 4, 6, 5];
    assert Scan(g, [1, 2, 3, 4], 4, 3, 1) == Outcome(2, [1, 2, 3, 4]);
    assert Visit(g, [1, 2, 3], 4, 3) == Outcome(2, [1, 2, 3, 4]);
    assert Scan(g, [1, 2, 3], 3, 2, 1) == Outcome(2, [1, 2, 3, 4]);
    assert Visit(g, [1, 2], 3, 2) == Outcome(2, [1, 2, 3, 4]);
    assert Scan(g, [1, 2], 2, 1, 1) == Outcome(2, [1, 2, 3, 4]);
    assert Visit(g, [1], 2, 1) == Outcome(2, [1, 2, 3, 4]);
    assert Visit(g, [1, 2, 3, 4, 6], 5, 6) == Outcome(1, [1, 2, 3, 4, 6, 5]);
  }
}
