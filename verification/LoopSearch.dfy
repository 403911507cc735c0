/** The depth-first searches of controller.c on graph values. `seen` lists the discovered devices in
    the order of their discovery. */
module LoopSearch {
  import opened Topology

  datatype Outcome = Outcome(report: int, seen: seq<int>)

  function Unseen(g: Graph, seen: seq<int>): set<int> {
    g.adj.Keys - set v | v in seen
  }

  lemma UnseenShrinks(g: Graph, seen: seq<int>, later: seq<int>)
    requires seen <= later
    ensures Unseen(g, later) <= Unseen(g, seen)
    ensures |Unseen(g, later)| <= |Unseen(g, seen)|
  {
    assert Unseen(g, later) + (Unseen(g, seen) - Unseen(g, later)) == Unseen(g, seen);
  }

  lemma UnseenDrops(g: Graph, seen: seq<int>, v: int)
    requires v in g.adj && v !in seen
    ensures |Unseen(g, seen + [v])| < |Unseen(g, seen)|
  {
    assert Unseen(g, seen + [v]) == Unseen(g, seen) - {v};
  }

  /** The recursive search: a device met for the first time has its list scanned. */
  function Visit(g: Graph, seen: seq<int>, v: int, parent: int): (o: Outcome)
    requires Closed(g) && v in g.adj
    ensures seen <= o.seen
    decreases |Unseen(g, seen)|, 0
  {
    if v in seen then Outcome(0, seen)
    else
      UnseenDrops(g, seen, v);
      Scan(g, seen + [v], v, parent, 0)
  }

  /** The list of `v` from index `k` on: the parent is passed over, a discovered device is reported,
      any other is searched, and the scan ends at the first report. */
  function Scan(g: Graph, seen: seq<int>, v: int, parent: int, k: nat): (o: Outcome)
    requires Closed(g) && v in g.adj && k <= |g.adj[v]|
    ensures seen <= o.seen
    decreases |Unseen(g, seen)|, |g.adj[v]| - k + 1
  {
    if k == |g.adj[v]| then Outcome(0, seen)
    else
      var u := g.adj[v][k];
      if u == parent then Scan(g, seen, v, parent, k + 1)
      else if u in seen then Outcome(u, seen)
      else
        var o := Visit(g, seen, u, v);
        if o.report != 0 then o
        else
          UnseenShrinks(g, seen, o.seen);
          Scan(g, o.seen, v, parent, k + 1)
  }

  /** The searches started at the neighbours of a root, until one reports. */
  function FromRoot(g: Graph, seen: seq<int>, root: int, k: nat): (o: Outcome)
    requires Closed(g) && root in g.adj && k <= |g.adj[root]|
    ensures seen <= o.seen
    decreases |g.adj[root]| - k
  {
    if k == |g.adj[root]| then Outcome(0, seen)
    else
      var o := Visit(g, seen, g.adj[root][k], root);
      if o.report != 0 then o else FromRoot(g, o.seen, root, k + 1)
  }

  /** One search of the outer scan. */
  function Search(g: Graph, seen: seq<int>, root: int): (o: Outcome)
    requires Closed(g) && root in g.adj
    ensures seen + [root] <= o.seen
  {
    FromRoot(g, seen + [root], root, 0)
  }

  /** The outer scan after its first `n` slots. A search whose root has no neighbours leaves the
      variable `loop` as it was; any other search overwrites it, and the scan goes on. */
  function ScanSlots(g: Graph, n: nat): (o: Outcome)
    requires Closed(g) && n <= |g.order|
  {
    if n == 0 then Outcome(0, [])
    else
      var o := ScanSlots(g, n - 1);
      var root := g.order[n - 1];
      if root in o.seen then o
      else
        var s := Search(g, o.seen, root);
        Outcome(if g.adj[root] == [] then o.report else s.report, s.seen)
  }

  function LoopExists(g: Graph): int
    requires Closed(g)
  {
    ScanSlots(g, |g.order|).report
  }

  /** Slot `i` starts a search of the scan. */
  predicate Starts(g: Graph, i: nat)
    requires Closed(g) && i < |g.order|
  {
    g.order[i] !in ScanSlots(g, i).seen
  }

  /** The search that slot `i` starts reports. */
  predicate Reports(g: Graph, i: nat)
    requires Closed(g) && i < |g.order|
  {
    Starts(g, i) && Search(g, ScanSlots(g, i).seen, g.order[i]).report != 0
  }

  // ---------------------------------------------------------------- general facts

  lemma {:induction false} VisitKeepsDistinct(g: Graph, seen: seq<int>, v: int, parent: int)
    requires Closed(g) && v in g.adj && Distinct(seen)
    ensures Distinct(Visit(g, seen, v, parent).seen)
    decreases |Unseen(g, seen)|, 0
  {
    if v !in seen {
      UnseenDrops(g, seen, v);
      ScanKeepsDistinct(g, seen + [v], v, parent, 0);
    }
  }

  lemma {:induction false} ScanKeepsDistinct(g: Graph, seen: seq<int>, v: int, parent: int, k: nat)
    requires Closed(g) && v in g.adj && k <= |g.adj[v]| && Distinct(seen)
    ensures Distinct(Scan(g, seen, v, parent, k).seen)
    decreases |Unseen(g, seen)|, |g.adj[v]| - k + 1
  {
    if k < |g.adj[v]| {
      var u := g.adj[v][k];
      if u == parent {
        ScanKeepsDistinct(g, seen, v, parent, k + 1);
      } else if u !in seen {
        VisitKeepsDistinct(g, seen, u, v);
        var o := Visit(g, seen, u, v);
        if o.report == 0 {
          UnseenShrinks(g, seen, o.seen);
          ScanKeepsDistinct(g, o.seen, v, parent, k + 1);
        }
      }
    }
  }

  lemma {:induction false} FromRootKeepsDistinct(g: Graph, seen: seq<int>, root: int, k: nat)
    requires Closed(g) && root in g.adj && k <= |g.adj[root]| && Distinct(seen)
    ensures Distinct(FromRoot(g, seen, root, k).seen)
    decreases |g.adj[root]| - k
  {
    if k < |g.adj[root]| {
      VisitKeepsDistinct(g, seen, g.adj[root][k], root);
      var o := Visit(g, seen, g.adj[root][k], root);
      if o.report == 0 {
        FromRootKeepsDistinct(g, o.seen, root, k + 1);
      }
    }
  }

  lemma {:induction false} ScanSlotsDistinct(g: Graph, n: nat)
    requires Closed(g) && n <= |g.order|
    ensures Distinct(ScanSlots(g, n).seen)
    ensures forall i :: 0 <= i < n ==> g.order[i] in ScanSlots(g, n).seen
  {
    if n > 0 {
      ScanSlotsDistinct(g, n - 1);
      var o := ScanSlots(g, n - 1);
      if g.order[n - 1] !in o.seen {
        FromRootKeepsDistinct(g, o.seen + [g.order[n - 1]], g.order[n - 1], 0);
        var s := Search(g, o.seen, g.order[n - 1]).seen;
        assert s[|o.seen|] == (o.seen + [g.order[n - 1]])[|o.seen|];
        forall i | 0 <= i < n - 1
          ensures g.order[i] in s
        {
          var j :| 0 <= j < |o.seen| && o.seen[j] == g.order[i];
          assert s[j] == (o.seen + [g.order[n - 1]])[j];
        }
      }
    }
  }

  lemma {:induction false} VisitReportsKnown(g: Graph, seen: seq<int>, v: int, parent: int)
    requires Closed(g) && v in g.adj
    ensures var r := Visit(g, seen, v, parent).report; r != 0 ==> r in g.adj
    decreases |Unseen(g, seen)|, 0
  {
    if v !in seen {
      UnseenDrops(g, seen, v);
      ScanReportsKnown(g, seen + [v], v, parent, 0);
    }
  }

  lemma {:induction false} ScanReportsKnown(g: Graph, seen: seq<int>, v: int, parent: int, k: nat)
    requires Closed(g) && v in g.adj && k <= |g.adj[v]|
    ensures var r := Scan(g, seen, v, parent, k).report; r != 0 ==> r in g.adj
    decreases |Unseen(g, seen)|, |g.adj[v]| - k + 1
  {
    if k < |g.adj[v]| {
      var u := g.adj[v][k];
      assert u in g.adj[v];
      if u == parent {
        ScanReportsKnown(g, seen, v, parent, k + 1);
      } else if u !in seen {
        VisitReportsKnown(g, seen, u, v);
        var o := Visit(g, seen, u, v);
        if o.report == 0 {
          UnseenShrinks(g, seen, o.seen);
          ScanReportsKnown(g, o.seen, v, parent, k + 1);
        }
      }
    }
  }

  lemma {:induction false} FromRootReportsKnown(g: Graph, seen: seq<int>, root: int, k: nat)
    requires Closed(g) && root in g.adj && k <= |g.adj[root]|
    ensures var r := FromRoot(g, seen, root, k).report; r != 0 ==> r in g.adj
    decreases |g.adj[root]| - k
  {
    if k < |g.adj[root]| {
      VisitReportsKnown(g, seen, g.adj[root][k], root);
      FromRootReportsKnown(g, Visit(g, seen, g.adj[root][k], root).seen, root, k + 1);
    }
  }

  /** A reported device is one of the network's, so the search through the switch list ends. */
  lemma {:induction false} ReportedDeviceIsKnown(g: Graph, n: nat)
    requires Closed(g) && n <= |g.order|
    ensures var r := ScanSlots(g, n).report; r != 0 ==> r in g.adj
  {
    if n > 0 {
      ReportedDeviceIsKnown(g, n - 1);
      var o := ScanSlots(g, n - 1);
      FromRootReportsKnown(g, o.seen + [g.order[n - 1]], g.order[n - 1], 0);
    }
  }

  // ---------------------------------------------------------------- silent searches

  /** At most one neighbour of `s[i]` was discovered before it. */
  ghost predicate OneEarlier(g: Graph, s: seq<int>, i: nat)
    requires i < |s|
  {
    forall j, k :: 0 <= j < k < i ==> !(Linked(g, s[i], s[j]) && Linked(g, s[i], s[k]))
  }

  /** What a silent search started from `via` has added to `seen`: devices whose neighbours are all
      discovered, that touch the devices discovered earlier only at `via`, and of which each has at
      most one neighbour discovered before it. */
  ghost predicate SilentlyAdded(g: Graph, seen: seq<int>, s: seq<int>, via: int) {
    && seen <= s
    && (forall i, u :: |seen| <= i < |s| && Linked(g, s[i], u) ==> u in s && (u in seen ==> u == via))
    && (forall i :: |seen| <= i < |s| ==> OneEarlier(g, s, i))
  }

  /** The entries of a list from index `k` on, except the parent, have been discovered after `seen`. */
  ghost predicate RowDone(row: seq<int>, k: nat, parent: int, seen: seq<int>, s: seq<int>) {
    forall j :: k <= j < |row| ==> row[j] == parent || (row[j] !in seen && row[j] in s)
  }

  lemma SilentlyAddedTwice(g: Graph, a: seq<int>, b: seq<int>, s: seq<int>, via: int)
    requires SilentlyAdded(g, a, b, via) && SilentlyAdded(g, b, s, via)
    ensures SilentlyAdded(g, a, s, via)
  {
    forall i | |a| <= i < |s|
      ensures OneEarlier(g, s, i)
    {
      if i < |b| {
        assert OneEarlier(g, b, i);
      }
    }
    forall i, u | |a| <= i < |s| && Linked(g, s[i], u)
      ensures u in s && (u in a ==> u == via)
    {
      if i < |b| {
        assert Linked(g, b[i], u);
        assert u in b;
      }
    }
  }

  lemma {:induction false} SilentVisit(g: Graph, seen: seq<int>, v: int, parent: int)
    requires Simple(g) && v in g.adj && v !in seen && Distinct(seen) && parent in seen
    requires Visit(g, seen, v, parent).report == 0
    ensures var s := Visit(g, seen, v, parent).seen;
            && SilentlyAdded(g, seen, s, parent)
            && |seen| < |s| && s[|seen|] == v
            && (forall i, u :: |seen| < i < |s| && Linked(g, s[i], u) ==> u !in seen)
    decreases |Unseen(g, seen)|, 0
  {
    UnseenDrops(g, seen, v);
    SilentScan(g, seen + [v], v, parent, 0);
    SilentlyAddedVisit(g, seen, Visit(g, seen, v, parent).seen, v, parent);
  }

  /** A visit adds its device, and then what its scan adds. */
  lemma SilentlyAddedVisit(g: Graph, seen: seq<int>, s: seq<int>, v: int, parent: int)
    requires v in g.adj && Distinct(seen) && v !in seen && SilentlyAdded(g, seen + [v], s, v)
    requires RowDone(g.adj[v], 0, parent, seen + [v], s)
    requires parent in seen
    ensures SilentlyAdded(g, seen, s, parent)
    ensures |seen| < |s| && s[|seen|] == v
    ensures forall i, u :: |seen| < i < |s| && Linked(g, s[i], u) ==> u !in seen
  {
    var n := |seen|;
    var t := seen + [v];
    assert s[n] == t[n] && s[..n] == seen;
    forall u | Linked(g, v, u)
      ensures u in s && (u in seen ==> u == parent)
    {
      var j :| 0 <= j < |g.adj[v]| && g.adj[v][j] == u;
      assert parent in s[..n];
    }
    forall i, u | n < i < |s| && Linked(g, s[i], u)
      ensures u in s && u !in seen
    {
      assert u in seen ==> u in t;
    }
    forall i | n <= i < |s|
      ensures OneEarlier(g, s, i)
    {
      if i == n {
        assert forall j :: 0 <= j < n ==> s[j] == seen[j];
      }
    }
  }

  lemma {:induction false} SilentScan(g: Graph, seen: seq<int>, v: int, parent: int, k: nat)
    requires Simple(g) && v in g.adj && k <= |g.adj[v]| && Distinct(seen) && v in seen && parent in seen
    requires Scan(g, seen, v, parent, k).report == 0
    ensures var s := Scan(g, seen, v, parent, k).seen;
            && SilentlyAdded(g, seen, s, v)
            && RowDone(g.adj[v], k, parent, seen, s)
    decreases |Unseen(g, seen)|, |g.adj[v]| - k + 1
  {
    assert Closed(g);
    assert k == |g.adj[v]| ==> Scan(g, seen, v, parent, k).seen == seen;
    assert k < |g.adj[v]| && g.adj[v][k] == parent ==> Scan(g, seen, v, parent, k) == Scan(g, seen, v, parent, k + 1);
    hide Visit, Scan, SilentlyAdded, OneEarlier, Simple, Closed, Distinct, Unseen, RowDone;
    if k == |g.adj[v]| {
      NothingAdded(g, seen, v, parent);
    } else if g.adj[v][k] == parent {
      SilentScan(g, seen, v, parent, k + 1);
      ParentPassed(g.adj[v], k, parent, seen, Scan(g, seen, v, parent, k + 1).seen);
    } else {
      var u := g.adj[v][k];
      SilentStepOfScan(g, seen, v, parent, k);
      SilentVisit(g, seen, u, v);
      VisitKeepsDistinct(g, seen, u, v);
      var o := Visit(g, seen, u, v);
      UnseenShrinks(g, seen, o.seen);
      SilentScan(g, o.seen, v, parent, k + 1);
      var s := Scan(g, o.seen, v, parent, k + 1).seen;
      SilentlyAddedTwice(g, seen, o.seen, s, v);
      ListsStay(g.adj[v], seen, o.seen, s, k, parent);
    }
  }

  lemma NothingAdded(g: Graph, seen: seq<int>, v: int, parent: int)
    requires v in g.adj
    ensures SilentlyAdded(g, seen, seen, v) && RowDone(g.adj[v], |g.adj[v]|, parent, seen, seen)
  {
  }

  lemma ParentPassed(row: seq<int>, k: nat, parent: int, seen: seq<int>, s: seq<int>)
    requires k < |row| && row[k] == parent && RowDone(row, k + 1, parent, seen, s)
    ensures RowDone(row, k, parent, seen, s)
  {
  }

  /** A silent scan that does not pass over an entry visits it without a report, and goes on from there. */
  lemma SilentStepOfScan(g: Graph, seen: seq<int>, v: int, parent: int, k: nat)
    requires Closed(g) && v in g.adj && k < |g.adj[v]| && g.adj[v][k] != parent
    requires Scan(g, seen, v, parent, k).report == 0
    ensures var u := g.adj[v][k];
            && u in g.adj && u !in seen && Visit(g, seen, u, v).report == 0
            && Scan(g, seen, v, parent, k) == Scan(g, Visit(g, seen, u, v).seen, v, parent, k + 1)
            && seen <= Visit(g, seen, u, v).seen <= Scan(g, Visit(g, seen, u, v).seen, v, parent, k + 1).seen
  {
    hide Visit;
    var u := g.adj[v][k];
    assert u in g.adj && u != 0;
  }

  /** Entry `k` has been discovered, and what holds of the later entries then holds from `k` on. */
  lemma ListsStay(row: seq<int>, seen: seq<int>, mid: seq<int>, s: seq<int>, k: nat, parent: int)
    requires k < |row| && seen <= mid <= s && |seen| < |mid| && mid[|seen|] == row[k] && row[k] !in seen
    requires RowDone(row, k + 1, parent, mid, s)
    ensures RowDone(row, k, parent, seen, s)
  {
    assert forall x :: x in seen ==> x in mid;
    assert s[|seen|] == row[k];
  }

  // ---------------------------------------------------------------- reports

  /** `stack` is the path of the devices whose lists are being scanned; every other device discovered
      since `base` has all its neighbours discovered. */
  ghost predicate OpenStack(g: Graph, base: seq<int>, seen: seq<int>, stack: seq<int>) {
    && base <= seen && Distinct(seen)
    && IsPath(g, stack) && Distinct(stack)
    && (forall x :: x in stack ==> x in seen && x !in base)
    && (forall x, u :: x in seen && x !in stack && x !in base && Linked(g, x, u) ==> u in seen)
  }

  ghost function Until(c: seq<int>, v: int): iset<int> {
    iset y | y !in c || y == v
  }

  /** A path from `root` meets the cycle `c` at `v` first. */
  ghost predicate Entrance(g: Graph, c: seq<int>, root: int, v: int) {
    v in c && Joined(g, Until(c, v), root, v)
  }

  /** What a nonzero report means for a search from `root` that began with `base` discovered: the
      reported device is where a path from the root enters a simple cycle of newly discovered devices, or it was
      discovered by an earlier search and a newly discovered device other than the root is linked to it. */
  ghost predicate Evidence(g: Graph, base: seq<int>, root: int, o: Outcome) {
    || (exists c :: IsCycle(g, c) && Entrance(g, c, root, o.report) && forall x :: x in c ==> x in o.seen && x !in base)
    || (o.report in base && exists x :: x in o.seen && x !in base && x != root && Linked(g, x, o.report))
  }

  /** Discovered devices in the list of `v` from index `k` on are on the stack or from `base`. */
  ghost predicate Settled(g: Graph, base: seq<int>, seen: seq<int>, stack: seq<int>, v: int, k: nat) {
    && v in g.adj && k <= |g.adj[v]|
    && forall j :: k <= j < |g.adj[v]| && g.adj[v][j] in seen ==> g.adj[v][j] in stack || g.adj[v][j] in base
  }

  lemma PushedStack(g: Graph, base: seq<int>, seen: seq<int>, v: int, stack: seq<int>)
    requires Simple(g) && OpenStack(g, base, seen, stack)
    requires v !in seen && Linked(g, stack[|stack| - 1], v)
    ensures OpenStack(g, base, seen + [v], stack + [v])
    ensures Settled(g, base, seen + [v], stack + [v], v, 0)
  {
    var deeper := stack + [v];
    forall i | 0 <= i < |deeper| - 1
      ensures Linked(g, deeper[i], deeper[i + 1])
    {
      if i < |stack| - 1 {
        assert Linked(g, stack[i], stack[i + 1]);
      }
    }
    assert forall j :: 0 <= j < |base| ==> seen[j] == base[j];
    forall j | 0 <= j < |g.adj[v]| && g.adj[v][j] in seen
      ensures g.adj[v][j] in stack || g.adj[v][j] in base
    {
      var u := g.adj[v][j];
      assert Linked(g, v, u);
      assert Linked(g, u, v);
    }
    assert !Linked(g, v, v);
  }

  lemma {:induction false} ReportedVisit(g: Graph, base: seq<int>, seen: seq<int>, v: int, stack: seq<int>)
    requires Simple(g) && OpenStack(g, base, seen, stack)
    requires v !in seen && Linked(g, stack[|stack| - 1], v)
    ensures var o := Visit(g, seen, v, stack[|stack| - 1]);
            o.report != 0 ==> Evidence(g, base, stack[0], o)
    decreases |Unseen(g, seen)|, 0
  {
    UnseenDrops(g, seen, v);
    PushedStack(g, base, seen, v, stack);
    ReportedScan(g, base, seen + [v], stack + [v], v, stack[|stack| - 1], 0);
  }

  lemma {:induction false} ReportedScan(g: Graph, base: seq<int>, seen: seq<int>, stack: seq<int>, v: int,
                                        parent: int, k: nat)
    requires Simple(g) && OpenStack(g, base, seen, stack)
    requires |stack| >= 2 && v == stack[|stack| - 1] && parent == stack[|stack| - 2]
    requires Settled(g, base, seen, stack, v, k)
    ensures var o := Scan(g, seen, v, parent, k);
            o.report != 0 ==> Evidence(g, base, stack[0], o)
    decreases |Unseen(g, seen)|, |g.adj[v]| - k + 1
  {
    hide Evidence, SilentlyAdded, IsPath;
    if k < |g.adj[v]| {
      var u := g.adj[v][k];
      assert Linked(g, v, u);
      if u == parent {
        ReportedScan(g, base, seen, stack, v, parent, k + 1);
      } else if u in seen {
        HitIsEvidence(g, base, seen, stack, u);
      } else {
        ReportedVisit(g, base, seen, u, stack);
        var o := Visit(g, seen, u, v);
        if o.report == 0 {
          SilentVisit(g, seen, u, v);
          VisitKeepsDistinct(g, seen, u, v);
          UnseenShrinks(g, seen, o.seen);
          StackAfterSilentVisit(g, base, seen, stack, v, k, o.seen);
          ReportedScan(g, base, o.seen, stack, v, parent, k + 1);
        }
      }
    }
  }

  lemma HitIsEvidence(g: Graph, base: seq<int>, seen: seq<int>, stack: seq<int>, u: int)
    requires Simple(g) && OpenStack(g, base, seen, stack) && |stack| >= 2
    requires Linked(g, stack[|stack| - 1], u) && u != stack[|stack| - 2] && (u in stack || u in base)
    ensures Evidence(g, base, stack[0], Outcome(u, seen))
  {
    var v := stack[|stack| - 1];
    if u in stack {
      var j :| 0 <= j < |stack| && stack[j] == u;
      assert !Linked(g, v, v);
      var c := stack[j..];
      forall i | 0 <= i < |c| - 1
        ensures Linked(g, c[i], c[i + 1])
      {
        assert Linked(g, stack[j + i], stack[j + i + 1]);
      }
      assert c[0] == u && u in g.adj;
      assert IsCycle(g, c);
      StackEnters(g, stack, j);
      assert forall x :: x in c ==> x in stack;
    }
  }

  lemma StackEnters(g: Graph, stack: seq<int>, j: nat)
    requires IsPath(g, stack) && Distinct(stack) && j < |stack|
    ensures Entrance(g, stack[j..], stack[0], stack[j])
  {
    var c, p := stack[j..], stack[..j + 1];
    PathCut(g, stack, 0, j);
    assert c[0] == stack[j];
    forall y | y in p
      ensures y in Until(c, stack[j])
    {
      var i :| 0 <= i < |p| && p[i] == y;
      assert stack[i] == y;
    }
    assert p[0] == stack[0] && p[|p| - 1] == stack[j];
  }

  lemma StackAfterSilentVisit(g: Graph, base: seq<int>, seen: seq<int>, stack: seq<int>, v: int, k: nat, s: seq<int>)
    requires Simple(g) && OpenStack(g, base, seen, stack) && Settled(g, base, seen, stack, v, k)
    requires v == stack[|stack| - 1] && k < |g.adj[v]|
    requires SilentlyAdded(g, seen, s, v) && Distinct(s)
    requires |seen| < |s| && s[|seen|] == g.adj[v][k]
    requires forall i, u :: |seen| < i < |s| && Linked(g, s[i], u) ==> u !in seen
    ensures OpenStack(g, base, s, stack) && Settled(g, base, s, stack, v, k + 1)
  {
    assert s[..|seen|] == seen;
    forall x, u | x in s && x !in stack && x !in base && Linked(g, x, u)
      ensures u in s
    {
      if x in seen {
        assert u in seen;
        assert u in s[..|seen|];
      }
    }
    forall x | x in stack
      ensures x in s
    {
      assert x in s[..|seen|];
    }
    forall j | k < j < |g.adj[v]| && g.adj[v][j] in s
      ensures g.adj[v][j] in stack || g.adj[v][j] in base
    {
      var u := g.adj[v][j];
      assert Linked(g, v, u) && Linked(g, u, v);
      var i :| 0 <= i < |s| && s[i] == u;
      assert v in seen;
      assert Distinct(g.adj[v]);
      if i < |seen| {
        assert u == seen[i];
      }
    }
  }

  // ---------------------------------------------------------------- the searched region

  /** `x` can be reached from `root` without passing a device of `base`. */
  ghost predicate Reaches(g: Graph, base: seq<int>, root: int, x: int) {
    Joined(g, Beyond(base), root, x)
  }

  ghost function Beyond(base: seq<int>): iset<int> {
    iset y | y !in base
  }

  /** What has been discovered since `base`. */
  ghost function Since(base: seq<int>, s: seq<int>): iset<int> {
    iset y | y in s && y !in base
  }

  /** Each device discovered since `base` is joined to the root by such devices. */
  ghost predicate AllReached(g: Graph, base: seq<int>, root: int, s: seq<int>) {
    forall x :: x in s && x !in base ==> Joined(g, Since(base, s), root, x)
  }

  lemma ReachedNext(g: Graph, base: seq<int>, root: int, seen: seq<int>, x: int, v: int)
    requires AllReached(g, base, root, seen) && x in seen && x !in base && Linked(g, x, v) && v !in base
    ensures AllReached(g, base, root, seen + [v])
  {
    var area, wider := Since(base, seen), Since(base, seen + [v]);
    forall y | y in seen + [v] && y !in base
      ensures Joined(g, wider, root, y)
    {
      JoinedStarts(g, area, root, x);
      if y in seen {
        JoinedWider(g, area, g, wider, root, y);
      } else {
        JoinedWider(g, area, g, wider, root, x);
        JoinedLink(g, wider, x, v);
        JoinedOn(g, wider, root, x, v);
      }
    }
  }

  /** A visit from a device discovered since `base`. */
  lemma {:induction false} VisitReaches(g: Graph, base: seq<int>, root: int, seen: seq<int>, v: int, parent: int)
    requires Closed(g) && v in g.adj && base <= seen
    requires parent in seen && parent !in base && Linked(g, parent, v)
    requires AllReached(g, base, root, seen)
    ensures AllReached(g, base, root, Visit(g, seen, v, parent).seen)
    decreases |Unseen(g, seen)|, 0
  {
    if v !in seen {
      UnseenDrops(g, seen, v);
      assert base == seen[..|base|];
      ReachedNext(g, base, root, seen, parent, v);
      ScanReaches(g, base, root, seen + [v], v, parent, 0);
    }
  }

  lemma {:induction false} ScanReaches(g: Graph, base: seq<int>, root: int, seen: seq<int>, v: int, parent: int, k: nat)
    requires Closed(g) && v in g.adj && k <= |g.adj[v]| && base <= seen
    requires v in seen && v !in base
    requires AllReached(g, base, root, seen)
    ensures AllReached(g, base, root, Scan(g, seen, v, parent, k).seen)
    decreases |Unseen(g, seen)|, |g.adj[v]| - k + 1
  {
    if k < |g.adj[v]| {
      var u := g.adj[v][k];
      if u == parent {
        ScanReaches(g, base, root, seen, v, parent, k + 1);
      } else if u !in seen {
        assert Linked(g, v, u);
        VisitReaches(g, base, root, seen, u, v);
        var o := Visit(g, seen, u, v);
        if o.report == 0 {
          UnseenShrinks(g, seen, o.seen);
          assert v in o.seen[..|seen|];
          ScanReaches(g, base, root, o.seen, v, parent, k + 1);
        }
      }
    }
  }

  lemma {:induction false} FromRootReaches(g: Graph, base: seq<int>, root: int, seen: seq<int>, k: nat)
    requires Closed(g) && root in g.adj && k <= |g.adj[root]| && base <= seen
    requires root in seen && root !in base
    requires AllReached(g, base, root, seen)
    ensures AllReached(g, base, root, FromRoot(g, seen, root, k).seen)
    decreases |g.adj[root]| - k
  {
    if k < |g.adj[root]| {
      var u := g.adj[root][k];
      assert Linked(g, root, u);
      VisitReaches(g, base, root, seen, u, root);
      var o := Visit(g, seen, u, root);
      if o.report == 0 {
        assert root in o.seen[..|seen|];
        FromRootReaches(g, base, root, o.seen, k + 1);
      }
    }
  }

  /** A search discovers only devices that its root reaches without passing an already discovered one, and indeed
      through devices that it discovers itself. */
  lemma SearchStaysInRegion(g: Graph, base: seq<int>, root: int)
    requires Closed(g) && root in g.adj && root !in base
    ensures AllReached(g, base, root, Search(g, base, root).seen)
    ensures forall x :: x in Search(g, base, root).seen && x !in base ==> Reaches(g, base, root, x)
  {
    var seen, s := base + [root], Search(g, base, root).seen;
    var p := [root];
    assert IsPath(g, p) && p[0] == root && p[|p| - 1] == root && forall y :: y in p ==> y in Since(base, seen);
    FromRootReaches(g, base, root, seen, 0);
    forall x | x in s && x !in base
      ensures Reaches(g, base, root, x)
    {
      assert Joined(g, Since(base, s), root, x);
    }
  }

  // ---------------------------------------------------------------- one search, exactly

  lemma {:induction false} SilentFromRoot(g: Graph, seen: seq<int>, root: int, k: nat)
    requires Simple(g) && root in g.adj && root in seen && k <= |g.adj[root]| && Distinct(seen)
    requires FromRoot(g, seen, root, k).report == 0
    ensures var s := FromRoot(g, seen, root, k).seen;
            SilentlyAdded(g, seen, s, root) && forall j :: k <= j < |g.adj[root]| ==> g.adj[root][j] in s
    decreases |g.adj[root]| - k
  {
    if k < |g.adj[root]| {
      var u := g.adj[root][k];
      SilentStep(g, seen, u, root);
      var o := Visit(g, seen, u, root);
      SilentFromRoot(g, o.seen, root, k + 1);
      var s := FromRoot(g, o.seen, root, k + 1).seen;
      SilentlyAddedTwice(g, seen, o.seen, s, root);
      assert s[..|o.seen|] == o.seen;
    }
  }

  /** A silent call from a root, on a neighbour that may have been discovered already. */
  lemma SilentStep(g: Graph, seen: seq<int>, u: int, root: int)
    requires Simple(g) && u in g.adj && root in seen && Distinct(seen)
    requires Visit(g, seen, u, root).report == 0
    ensures var s := Visit(g, seen, u, root).seen;
            SilentlyAdded(g, seen, s, root) && Distinct(s) && u in s && root in s
  {
    VisitKeepsDistinct(g, seen, u, root);
    var s := Visit(g, seen, u, root).seen;
    assert s[..|seen|] == seen;
    if u !in seen {
      SilentVisit(g, seen, u, root);
    }
  }

  lemma {:induction false} ReportedFromRoot(g: Graph, base: seq<int>, seen: seq<int>, root: int, k: nat)
    requires Simple(g) && OpenStack(g, base, seen, [root]) && k <= |g.adj[root]|
    ensures var o := FromRoot(g, seen, root, k);
            o.report != 0 ==> Evidence(g, base, root, o)
    decreases |g.adj[root]| - k
  {
    if k < |g.adj[root]| {
      var u := g.adj[root][k];
      assert Linked(g, root, u);
      var o := Visit(g, seen, u, root);
      if u !in seen {
        ReportedVisit(g, base, seen, u, [root]);
        if o.report == 0 {
          SilentVisit(g, seen, u, root);
          VisitKeepsDistinct(g, seen, u, root);
          assert o.seen[..|seen|] == seen;
          assert OpenStack(g, base, o.seen, [root]);
        }
      }
      if o.report == 0 {
        ReportedFromRoot(g, base, o.seen, root, k + 1);
      }
    }
  }

  /** A search with a nonzero report: the reported device lies on a cycle of newly discovered
      devices, or an earlier search left it behind. */
  lemma ReportIsEvidence(g: Graph, base: seq<int>, root: int)
    requires Simple(g) && root in g.adj && root !in base && Distinct(base)
    ensures var o := Search(g, base, root);
            o.report != 0 ==> Evidence(g, base, root, o)
  {
    ReportedFromRoot(g, base, base + [root], root, 0);
  }

  /** The last discovered vertex of a cycle has two neighbours discovered before it. */
  lemma {:induction false} LastOnCycle(s: seq<int>, c: seq<int>) returns (m: nat, i: nat)
    requires c != [] && (forall x :: x in c ==> x in s)
    ensures m < |c| && i < |s| && s[i] == c[m]
    ensures forall x :: x in c ==> x in s[..i + 1]
  {
    var n := |c| - 1;
    assert c[n] in c;
    if n == 0 {
      m := 0;
      i :| 0 <= i < |s| && s[i] == c[0];
    } else {
      assert c == c[..n] + [c[n]];
      m, i := LastOnCycle(s, c[..n]);
      if c[n] !in s[..i + 1] {
        var j :| 0 <= j < |s| && s[j] == c[n];
        assert s[..i + 1] <= s[..j + 1];
        forall x | x in c
          ensures x in s[..j + 1]
        {
          if x != c[n] {
            var l :| 0 <= l < i + 1 && s[..i + 1][l] == x;
            assert s[..j + 1][l] == x;
          }
        }
        m, i := n, j;
      }
    }
  }

  lemma TwoEarlier(g: Graph, s: seq<int>, c: seq<int>) returns (i: nat)
    requires Simple(g) && Distinct(s) && IsCycle(g, c) && forall x :: x in c ==> x in s
    ensures 0 < i < |s| && !OneEarlier(g, s, i)
  {
    var m: nat;
    m, i := LastOnCycle(s, c);
    var prev, next := CycleNeighbours(g, c, c[m]);
    assert !Linked(g, c[m], c[m]);
    var j :| 0 <= j < i + 1 && s[..i + 1][j] == prev;
    var k :| 0 <= k < i + 1 && s[..i + 1][k] == next;
    assert s[j] == prev && s[k] == next && s[i] == c[m];
  }

  /** No cycle runs inside devices of which all but the first have at most one earlier neighbour. */
  lemma NoCycleInside(g: Graph, s: seq<int>, n: nat, c: seq<int>)
    requires Simple(g) && Distinct(s) && n < |s|
    requires forall i :: n < i < |s| ==> OneEarlier(g, s, i)
    requires forall x :: x in c ==> x in s[n..]
    ensures !IsCycle(g, c)
  {
    var t := s[n..];
    forall i | 0 < i < |t|
      ensures OneEarlier(g, t, i)
    {
      assert OneEarlier(g, s, n + i);
      assert forall j :: 0 <= j < |t| ==> t[j] == s[n + j];
    }
    if IsCycle(g, c) {
      var i := TwoEarlier(g, t, c);
    }
  }

  /** In the region a search can reach there is a cycle. */
  ghost predicate RegionHasCycle(g: Graph, base: seq<int>, root: int) {
    exists c :: IsCycle(g, c) && forall x :: x in c ==> Reaches(g, base, root, x)
  }

  /** A device of the region other than the root is linked to a device discovered earlier. */
  ghost predicate RegionTouches(g: Graph, base: seq<int>, root: int) {
    exists x, u :: Reaches(g, base, root, x) && x != root && Linked(g, x, u) && u in base
  }

  lemma {:induction false} PathStaysInside(g: Graph, base: seq<int>, s: seq<int>, p: seq<int>)
    requires base <= s && IsPath(g, p) && p[0] in s && (forall y :: y in p ==> y !in base)
    requires forall i, u :: |base| <= i < |s| && Linked(g, s[i], u) ==> u in s
    ensures p[|p| - 1] in s
  {
    var n := |p| - 1;
    assert forall j :: 0 <= j < |base| ==> base[j] == s[j];
    if n > 0 {
      var q := p[..n];
      assert forall i :: 0 <= i < n - 1 ==> Linked(g, q[i], q[i + 1]) by {
        forall i | 0 <= i < n - 1
          ensures Linked(g, q[i], q[i + 1])
        {
          assert Linked(g, p[i], p[i + 1]);
        }
      }
      PathStaysInside(g, base, s, q);
      var j :| 0 <= j < |s| && s[j] == q[n - 1];
      assert Linked(g, p[n - 1], p[n - 1 + 1]);
      assert q[n - 1] == p[n - 1] && p[n - 1] in p;
    }
  }

  /** `s` extends `base` by a tree rooted at `root` that is complete and touches `base` only there. */
  ghost predicate TreeAdded(g: Graph, base: seq<int>, s: seq<int>, root: int) {
    && base <= s && Distinct(s) && |base| < |s| && s[|base|] == root
    && (forall i, u :: |base| <= i < |s| && Linked(g, s[i], u) ==> u in s && (u in base ==> i == |base|))
    && (forall i :: |base| < i < |s| ==> OneEarlier(g, s, i))
  }

  lemma SilentSearchAddsTree(g: Graph, base: seq<int>, root: int)
    requires Simple(g) && root in g.adj && root !in base && Distinct(base)
    requires Search(g, base, root).report == 0
    ensures TreeAdded(g, base, Search(g, base, root).seen, root)
  {
    SilentFromRoot(g, base + [root], root, 0);
    FromRootKeepsDistinct(g, base + [root], root, 0);
    RootAndAdded(g, base, Search(g, base, root).seen, root);
  }

  lemma RootAndAdded(g: Graph, base: seq<int>, s: seq<int>, root: int)
    requires root in g.adj && root !in base && Distinct(s) && SilentlyAdded(g, base + [root], s, root)
    requires forall j :: 0 <= j < |g.adj[root]| ==> g.adj[root][j] in s
    ensures TreeAdded(g, base, s, root)
  {
    assert s[|base|] == (base + [root])[|base|] == root;
    assert s[..|base| + 1] == base + [root];
    assert s[..|base|] == base;
    assert forall x :: x in base ==> x in base + [root];
    forall i, u | |base| <= i < |s| && Linked(g, s[i], u)
      ensures u in s && (u in base ==> i == |base|)
    {
      if i == |base| {
        var j :| 0 <= j < |g.adj[root]| && g.adj[root][j] == u;
      }
    }
  }

  lemma RegionIsAdded(g: Graph, base: seq<int>, s: seq<int>, root: int)
    requires TreeAdded(g, base, s, root) && root !in base
    ensures forall x :: Reaches(g, base, root, x) ==> x in s[|base|..]
  {
    assert s[|base|..][0] == root;
    forall x | Reaches(g, base, root, x)
      ensures x in s[|base|..]
    {
      var p :| IsPath(g, p) && p[0] == root && p[|p| - 1] == x && forall y :: y in p ==> y !in base;
      PathStaysInside(g, base, s, p);
      assert x in p && x !in base;
      assert s == s[..|base|] + s[|base|..];
      assert s[..|base|] == base;
    }
  }

  /** What a silent search has discovered is its whole region, a tree joined to the rest of the
      discovered devices at most at the root. */
  lemma SilentSearch(g: Graph, base: seq<int>, root: int)
    requires Simple(g) && root in g.adj && root !in base && Distinct(base)
    requires Search(g, base, root).report == 0
    ensures !RegionHasCycle(g, base, root) && !RegionTouches(g, base, root)
    ensures forall x :: x !in base ==> (x in Search(g, base, root).seen <==> Reaches(g, base, root, x))
  {
    var s := Search(g, base, root).seen;
    SilentSearchAddsTree(g, base, root);
    SearchStaysInRegion(g, base, root);
    RegionIsAdded(g, base, s, root);
    forall c | forall x :: x in c ==> Reaches(g, base, root, x)
      ensures !IsCycle(g, c)
    {
      NoCycleInside(g, s, |base|, c);
    }
    forall x, u | Reaches(g, base, root, x) && x != root && Linked(g, x, u)
      ensures u !in base
    {
      var i :| 0 <= i < |s[|base|..]| && s[|base|..][i] == x;
      assert Linked(g, s[|base| + i], u);
    }
    assert forall x :: x in s[|base|..] ==> x in s;
  }

  /** A search reports exactly when its region has a cycle or touches, elsewhere than at the root, a
      device that was discovered before. */
  lemma SearchExactly(g: Graph, base: seq<int>, root: int)
    requires Simple(g) && root in g.adj && root !in base && Distinct(base)
    ensures Search(g, base, root).report != 0
       <==> (RegionHasCycle(g, base, root) || RegionTouches(g, base, root))
  {
    var o := Search(g, base, root);
    if o.report == 0 {
      SilentSearch(g, base, root);
    } else {
      ReportIsEvidence(g, base, root);
      SearchStaysInRegion(g, base, root);
    }
  }
}
