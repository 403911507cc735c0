/** The network as an undirected graph of device numbers, and what a link does to its cycles. */
module Topology {
  /** Device numbers in slot order, and for each device its adjacency list. */
  datatype Graph = Graph(order: seq<int>, adj: map<int, seq<int>>)

  ghost predicate Distinct(s: seq<int>) {
    forall i, j :: 0 <= i < j < |s| ==> s[i] != s[j]
  }

  /** What the searches need in order to stay in range: known, distinct, nonzero device numbers. */
  ghost predicate Closed(g: Graph) {
    && Distinct(g.order)
    && (forall v :: v in g.adj <==> v in g.order)
    && 0 !in g.order
    && (forall v, u :: v in g.adj && u in g.adj[v] ==> u in g.adj)
  }

  predicate Linked(g: Graph, u: int, v: int) {
    u in g.adj && v in g.adj[u]
  }

  /** A closed graph whose lists are symmetric, duplicate-free and without self entries. */
  ghost predicate Simple(g: Graph) {
    && Closed(g)
    && (forall v :: v in g.adj ==> Distinct(g.adj[v]))
    && (forall v :: !Linked(g, v, v))
    && (forall u, v :: Linked(g, u, v) ==> Linked(g, v, u))
  }

  ghost predicate IsPath(g: Graph, p: seq<int>) {
    && p != []
    && p[0] in g.adj
    && (forall i :: 0 <= i < |p| - 1 ==> Linked(g, p[i], p[i + 1]))
  }

  ghost predicate Connected(g: Graph, u: int, v: int) {
    exists p :: IsPath(g, p) && p[0] == u && p[|p| - 1] == v
  }

  /** A simple cycle. */
  ghost predicate IsCycle(g: Graph, c: seq<int>) {
    |c| >= 3 && Distinct(c) && IsPath(g, c) && Linked(g, c[|c| - 1], c[0])
  }

  ghost predicate HasCycle(g: Graph) {
    exists c :: IsCycle(g, c)
  }

  const NO_DEVICES := Graph([], map[])

  /** The 8 bits of a descriptor that a node keeps. */
  function DeviceNum(fd: int): (num: int)
    ensures 0 <= num < 0x100
    ensures 0 <= fd < 0x100 ==> num == fd
  {
    fd % 0x100
  }

  /** A newly connected switch becomes an isolated vertex in the first free slot. */
  function AddDevice(g: Graph, fd: int): Graph {
    Graph(g.order + [DeviceNum(fd)], g.adj[DeviceNum(fd) := []])
  }

  /** The list of device `m` after a connection between `dest` and `src` has been reported. */
  function ExtendedList(m: int, row: seq<int>, dest: int, src: int): seq<int> {
    if (m != dest && m != src) || dest in row || src in row then row
    else row + [if m == dest then src else dest]
  }

  function AddLink(g: Graph, dest: int, src: int): Graph {
    Graph(g.order, map m | m in g.adj :: ExtendedList(m, g.adj[m], dest, src))
  }

  // ---------------------------------------------------------------- the representation invariant

  /** A new switch keeps the graph simple exactly when the low byte of its descriptor is nonzero and
      new; the descriptor 256, say, becomes device 0. */
  lemma AddDeviceKeepsSimple(g: Graph, fd: int)
    requires Simple(g)
    ensures Simple(AddDevice(g, fd)) <==> DeviceNum(fd) != 0 && DeviceNum(fd) !in g.order
  {
    var g', num := AddDevice(g, fd), DeviceNum(fd);
    if num in g.order {
      var i :| 0 <= i < |g.order| && g.order[i] == num;
      assert g'.order[i] == g'.order[|g.order|];
    } else {
      assert forall u, v :: Linked(g', u, v) <==> Linked(g, u, v);
      assert forall v :: v in g'.order <==> v in g.order || v == num;
    }
    if num == 0 {
      assert g'.order[|g.order|] == 0;
    }
  }

  lemma AddDeviceKeepsClosed(g: Graph, fd: int)
    requires Closed(g) && DeviceNum(fd) != 0 && DeviceNum(fd) !in g.order
    ensures Closed(AddDevice(g, fd))
  {
    assert forall v :: v in AddDevice(g, fd).order <==> v in g.order || v == DeviceNum(fd);
  }

  lemma AddLinkKeepsClosed(g: Graph, dest: int, src: int)
    requires Closed(g) && dest in g.adj && src in g.adj
    ensures Closed(AddLink(g, dest, src))
  {
    var g' := AddLink(g, dest, src);
    forall v, u | v in g'.adj && u in g'.adj[v]
      ensures u in g'.adj
    {
      assert u in g.adj[v] || u == dest || u == src;
    }
  }

  lemma LinksAfterAddLink(g: Graph, dest: int, src: int)
    requires Simple(g) && dest in g.adj && src in g.adj && dest != src
    ensures forall u, v :: Linked(AddLink(g, dest, src), u, v)
                      <==> (Linked(g, u, v) || (u == dest && v == src) || (u == src && v == dest))
  {
    var g' := AddLink(g, dest, src);
    forall u, v
      ensures Linked(g', u, v) <==> (Linked(g, u, v) || (u == dest && v == src) || (u == src && v == dest))
    {
      assert Linked(g, dest, src) <==> Linked(g, src, dest);
      assert !Linked(g, dest, dest) && !Linked(g, src, src);
      if u in g.adj {
        assert g'.adj[u] == ExtendedList(u, g.adj[u], dest, src);
      }
    }
  }

  /** Reporting a link between two known devices keeps the graph simple exactly when they differ. */
  lemma AddLinkKeepsSimple(g: Graph, dest: int, src: int)
    requires Simple(g) && dest in g.adj && src in g.adj
    ensures Simple(AddLink(g, dest, src)) <==> dest != src
  {
    var g' := AddLink(g, dest, src);
    assert !Linked(g, dest, dest) && !Linked(g, src, src);
    if dest == src {
      assert g'.adj[dest] == g.adj[dest] + [dest];
      assert Linked(g', dest, dest);
    } else {
      LinksAfterAddLink(g, dest, src);
      forall v | v in g'.adj
        ensures Distinct(g'.adj[v])
      {
        assert Distinct(g.adj[v]);
      }
    }
    AddLinkKeepsClosed(g, dest, src);
  }

  // ---------------------------------------------------------------- runs

  datatype Event = Join(fd: int) | Link(dest: int, src: int)

  function Apply(g: Graph, e: Event): Graph {
    match e
    case Join(fd) => AddDevice(g, fd)
    case Link(dest, src) => AddLink(g, dest, src)
  }

  function Run(events: seq<Event>): Graph {
    if events == [] then NO_DEVICES else Apply(Run(events[..|events| - 1]), events[|events| - 1])
  }

  /** An event the controller can meet: a fresh descriptor, or a link between two known switches. */
  predicate Admissible(g: Graph, e: Event) {
    match e
    case Join(fd) => DeviceNum(fd) != 0 && DeviceNum(fd) !in g.order
    case Link(dest, src) => dest in g.adj && src in g.adj && dest != src
  }

  ghost predicate AdmissibleRun(events: seq<Event>) {
    forall i :: 0 <= i < |events| ==> Admissible(Run(events[..i]), events[i])
  }

  /** The representation invariant holds after every run. */
  lemma {:induction false} RunIsSimple(events: seq<Event>)
    requires AdmissibleRun(events)
    ensures Simple(Run(events))
  {
    if events != [] {
      var n := |events| - 1;
      forall i | 0 <= i < n
        ensures Admissible(Run(events[..n][..i]), events[..n][i])
      {
        assert events[..n][..i] == events[..i];
      }
      RunIsSimple(events[..n]);
      assert Admissible(Run(events[..n]), events[n]);
      match events[n] {
        case Join(fd) => AddDeviceKeepsSimple(Run(events[..n]), fd);
        case Link(dest, src) => AddLinkKeepsSimple(Run(events[..n]), dest, src);
      }
    }
  }

  /** Run `events` is admissible and leads to `g`. */
  ghost predicate Leads(events: seq<Event>, g: Graph) {
    AdmissibleRun(events) && Run(events) == g
  }

  /** One more admissible event. */
  lemma LeadsOn(events: seq<Event>, g: Graph, e: Event)
    requires Leads(events, g) && Admissible(g, e)
    ensures Leads(events + [e], Apply(g, e))
  {
    var longer := events + [e];
    assert longer[..|events|] == events;
    forall i | 0 <= i < |longer|
      ensures Admissible(Run(longer[..i]), longer[i])
    {
      if i < |events| {
        assert longer[..i] == events[..i];
      }
    }
  }

  // ---------------------------------------------------------------- paths

  /** Any path can be shortened to one without repeated vertices. */
  lemma {:induction false} Shortened(g: Graph, p: seq<int>) returns (q: seq<int>)
    requires IsPath(g, p)
    ensures IsPath(g, q) && Distinct(q) && q[0] == p[0] && q[|q| - 1] == p[|p| - 1]
    ensures forall x :: x in q ==> x in p
    decreases |p|
  {
    if Distinct(p) {
      q := p;
    } else {
      var i, j :| 0 <= i < j < |p| && p[i] == p[j];
      var s := p[..i] + p[j..];
      forall k | 0 <= k < |s| - 1
        ensures Linked(g, s[k], s[k + 1])
      {
        if k < i - 1 {
          assert Linked(g, p[k], p[k + 1]);
        } else if k == i - 1 {
          assert Linked(g, p[k], p[k + 1]);
        } else {
          assert s[k] == p[k - i + j] && s[k + 1] == p[k - i + j + 1];
        }
      }
      q := Shortened(g, s);
    }
  }

  lemma ReversedPath(g: Graph, p: seq<int>) returns (r: seq<int>)
    requires Simple(g) && IsPath(g, p)
    ensures IsPath(g, r) && r[0] == p[|p| - 1] && r[|r| - 1] == p[0] && forall x :: x in r ==> x in p
  {
    r := seq(|p|, i requires 0 <= i < |p| => p[|p| - 1 - i]);
    forall i | 0 <= i < |r| - 1
      ensures Linked(g, r[i], r[i + 1])
    {
      assert Linked(g, p[|p| - 2 - i], p[|p| - 2 - i + 1]);
    }
    if |p| > 1 {
      assert Linked(g, r[0], r[1]);
    }
  }

  /** A path leads from `a` to `b` inside `area`. */
  ghost predicate Joined(g: Graph, area: iset<int>, a: int, b: int) {
    exists p :: IsPath(g, p) && p[0] == a && p[|p| - 1] == b && forall x :: x in p ==> x in area
  }

  lemma JoinedStarts(g: Graph, area: iset<int>, a: int, b: int)
    requires Joined(g, area, a, b)
    ensures a in g.adj && a in area && b in area
  {
    var p :| IsPath(g, p) && p[0] == a && p[|p| - 1] == b && forall x :: x in p ==> x in area;
    assert p[0] in p && p[|p| - 1] in p;
  }

  lemma JoinedLink(g: Graph, area: iset<int>, a: int, b: int)
    requires Linked(g, a, b) && a in area && b in area
    ensures Joined(g, area, a, b) && Joined(g, area, a, a)
  {
    var p := [a, b];
    assert IsPath(g, p) && p[0] == a && p[|p| - 1] == b && forall x :: x in p ==> x in area;
    var q := [a];
    assert IsPath(g, q) && q[0] == a && q[|q| - 1] == a && forall x :: x in q ==> x in area;
  }

  lemma JoinedOn(g: Graph, area: iset<int>, a: int, b: int, c: int)
    requires Joined(g, area, a, b) && Joined(g, area, b, c)
    ensures Joined(g, area, a, c)
  {
    var p :| IsPath(g, p) && p[0] == a && p[|p| - 1] == b && forall x :: x in p ==> x in area;
    var q :| IsPath(g, q) && q[0] == b && q[|q| - 1] == c && forall x :: x in q ==> x in area;
    var r := p + q[1..];
    forall i | 0 <= i < |r| - 1
      ensures Linked(g, r[i], r[i + 1])
    {
      if i < |p| - 1 {
        assert Linked(g, p[i], p[i + 1]);
      } else {
        assert Linked(g, q[i - |p| + 1], q[i - |p| + 1 + 1]);
      }
    }
    assert IsPath(g, r);
  }

  lemma JoinedBack(g: Graph, area: iset<int>, a: int, b: int)
    requires Simple(g) && Joined(g, area, a, b)
    ensures Joined(g, area, b, a)
  {
    var p :| IsPath(g, p) && p[0] == a && p[|p| - 1] == b && forall x :: x in p ==> x in area;
    var r := ReversedPath(g, p);
  }

  /** A path also leads through a wider area, and through another network that has the links inside the area. */
  lemma JoinedWider(g: Graph, area: iset<int>, g': Graph, wider: iset<int>, a: int, b: int)
    requires Joined(g, area, a, b) && area <= wider && a in g'.adj
    requires forall u, v :: u in area && v in area && Linked(g, u, v) ==> Linked(g', u, v)
    ensures Joined(g', wider, a, b)
  {
    var p :| IsPath(g, p) && p[0] == a && p[|p| - 1] == b && forall x :: x in p ==> x in area;
    forall i | 0 <= i < |p| - 1
      ensures Linked(g', p[i], p[i + 1])
    {
      assert Linked(g, p[i], p[i + 1]);
    }
  }

  /** When the ends of each link are joined inside the area of another network, so are the ends of each path. */
  lemma JoinedByLinks(g: Graph, area: iset<int>, g': Graph, p: seq<int>)
    requires IsPath(g, p) && (forall x :: x in p ==> x in area) && p[0] in g'.adj
    requires forall u, v :: u in area && v in area && Linked(g, u, v) ==> Joined(g', area, u, v)
    ensures Joined(g', area, p[0], p[|p| - 1])
  {
    var n := |p| - 1;
    if n == 0 {
      assert IsPath(g', p);
    } else {
      PathCut(g, p, 0, n - 1);
      JoinedByLinks(g, area, g', p[..n]);
      assert Linked(g, p[n - 1], p[n - 1 + 1]);
      JoinedOn(g', area, p[0], p[n - 1], p[n]);
    }
  }

  /** A piece of a path. */
  lemma PathCut(g: Graph, p: seq<int>, i: nat, j: nat)
    requires IsPath(g, p) && i <= j < |p| && p[i] in g.adj
    ensures IsPath(g, p[i..j + 1])
  {
    var q := p[i..j + 1];
    forall k | 0 <= k < |q| - 1
      ensures Linked(g, q[k], q[k + 1])
    {
      assert Linked(g, p[i + k], p[i + k + 1]);
    }
  }

  /** The vertex after `c[i]` on a cycle. */
  function Next(c: seq<int>, i: nat): int
    requires i < |c|
  {
    if i == |c| - 1 then c[0] else c[i + 1]
  }

  /** A cycle that walks over the link `c[i]`-`c[i+1]` joins its ends without that link. */
  lemma RotatedCycle(g: Graph, g': Graph, c: seq<int>, i: nat) returns (p: seq<int>)
    requires IsCycle(g', c) && i < |c|
    requires var a, b := c[i], Next(c, i);
             && (forall u, v :: Linked(g', u, v) ==> Linked(g, u, v) || (u == a && v == b) || (u == b && v == a))
             && b in g.adj
    ensures IsPath(g, p) && p[0] == Next(c, i) && p[|p| - 1] == c[i] && forall x :: x in p ==> x in c
  {
    var n := |c|;
    if i == n - 1 {
      p := c;
      forall k | 0 <= k < n - 1
        ensures Linked(g, p[k], p[k + 1])
      {
        assert Linked(g', c[k], c[k + 1]);
      }
    } else {
      p := c[i + 1..] + c[..i + 1];
      forall k | 0 <= k < n - 1
        ensures Linked(g, p[k], p[k + 1])
      {
        assert Distinct(c);
        if k < n - i - 2 {
          assert Linked(g', c[i + 1 + k], c[i + 2 + k]);
        } else if k == n - i - 2 {
          assert p[k] == c[n - 1] && p[k + 1] == c[0];
        } else {
          var m := k - (n - i - 1);
          assert p[k] == c[m] && p[k + 1] == c[m + 1];
          assert Linked(g', c[m], c[m + 1]);
        }
      }
    }
  }

  // ---------------------------------------------------------------- links and cycles

  /** A vertex of a cycle has two neighbours on it. */
  lemma CycleNeighbours(g: Graph, c: seq<int>, x: int) returns (u: int, w: int)
    requires Simple(g) && IsCycle(g, c) && x in c
    ensures u in c && w in c && u != w && Linked(g, x, u) && Linked(g, x, w)
  {
    var m :| 0 <= m < |c| && c[m] == x;
    u := if m == 0 then c[|c| - 1] else c[m - 1];
    w := Next(c, m);
    assert Distinct(c);
    if m < |c| - 1 {
      assert Linked(g, c[m], c[m + 1]);
    }
    if m > 0 {
      assert Linked(g, c[m - 1], c[m - 1 + 1]);
    }
  }

  /** The cycle, begun at `x`. */
  lemma Rotated(g: Graph, c: seq<int>, x: int) returns (d: seq<int>)
    requires Simple(g) && IsCycle(g, c) && x in c
    ensures IsCycle(g, d) && d[0] == x && forall y :: y in d <==> y in c
  {
    var m :| 0 <= m < |c| && c[m] == x;
    d := c[m..] + c[..m];
    Rearranged(c, m);
    forall i | 0 <= i < |d| - 1
      ensures Linked(g, d[i], d[i + 1])
    {
      StepOfRotated(g, c, m, i);
    }
    if m > 0 {
      assert Linked(g, c[m - 1], c[m - 1 + 1]);
    }
    assert Linked(g, d[0], d[0 + 1]);
  }

  lemma StepOfRotated(g: Graph, c: seq<int>, m: nat, i: nat)
    requires IsCycle(g, c) && m < |c| && i < |c| - 1
    ensures var d := c[m..] + c[..m]; Linked(g, d[i], d[i + 1])
  {
    if i < |c| - m - 1 {
      assert Linked(g, c[m + i], c[m + i + 1]);
    } else if i >= |c| - m {
      assert Linked(g, c[i - (|c| - m)], c[i - (|c| - m) + 1]);
    }
  }

  lemma Rearranged(c: seq<int>, m: nat)
    requires m < |c|
    ensures var d := c[m..] + c[..m]; (Distinct(c) ==> Distinct(d)) && forall y :: y in d <==> y in c
  {
    assert c == c[..m] + c[m..];
  }

  /** The vertices of a cycle but one. */
  ghost function Rest(c: seq<int>, x: int): iset<int> {
    iset y | y in c && y != x
  }

  /** Two vertices of a cycle are joined along it past any third one. */
  lemma CycleJoined(g: Graph, c: seq<int>, x: int, u: int, w: int)
    requires Simple(g) && IsCycle(g, c) && x in c && u in c && w in c && u != x && w != x
    ensures Joined(g, Rest(c, x), u, w)
  {
    var d := Rotated(g, c, x);
    var i :| 0 <= i < |d| && d[i] == u;
    var j :| 0 <= j < |d| && d[j] == w;
    assert 0 < i && 0 < j;
    if i < j {
      AlongCycle(g, d, i, j);
    } else {
      AlongCycle(g, d, j, i);
      JoinedBack(g, Rest(d, x), w, u);
    }
    assert Rest(d, x) == Rest(c, x);
  }

  lemma AlongCycle(g: Graph, d: seq<int>, i: nat, j: nat)
    requires Simple(g) && IsCycle(g, d) && 0 < i <= j < |d|
    ensures Joined(g, Rest(d, d[0]), d[i], d[j])
  {
    assert i < |d| - 1 ==> Linked(g, d[i], d[i + 1]);
    PathCut(g, d, i, j);
    var p := d[i..j + 1];
    assert p[0] == d[i] && p[|p| - 1] == d[j];
    forall y | y in p
      ensures y in Rest(d, d[0])
    {
      var k :| 0 <= k < |p| && p[k] == y;
      assert d[i + k] == y;
    }
  }

  /** Two ways into `x` from devices that are joined without it make a cycle. */
  lemma TwoWays(g: Graph, area: iset<int>, x: int, a: int, b: int) returns (c: seq<int>)
    requires Simple(g) && Linked(g, x, a) && Linked(g, x, b) && a != b && x !in area && Joined(g, area, a, b)
    ensures IsCycle(g, c) && x in c && a in c && b in c
  {
    var p :| IsPath(g, p) && p[0] == a && p[|p| - 1] == b && forall y :: y in p ==> y in area;
    var q := Shortened(g, p);
    c := [x] + q;
    forall i | 0 <= i < |c| - 1
      ensures Linked(g, c[i], c[i + 1])
    {
      if i > 0 {
        assert Linked(g, q[i - 1], q[i - 1 + 1]);
      }
    }
    assert Linked(g, b, x);
    assert q[0] in q && q[|q| - 1] in q;
  }

  /** A new link between two different devices of a network without cycles closes a cycle exactly
      when they were already connected. */
  lemma LinkClosesCycle(g: Graph, dest: int, src: int)
    requires Simple(g) && !HasCycle(g)
    requires dest in g.adj && src in g.adj && dest != src && !Linked(g, dest, src)
    ensures HasCycle(AddLink(g, dest, src)) <==> Connected(g, dest, src)
  {
    var g' := AddLink(g, dest, src);
    LinksAfterAddLink(g, dest, src);
    if Connected(g, dest, src) {
      PathMakesCycle(g, g', dest, src);
    }
    if HasCycle(g') {
      var c :| IsCycle(g', c);
      assert !IsCycle(g, c);
      var i := NewLinkOnCycle(g, g', c);
      var p := RotatedCycle(g, g', c, i);
      var r := ReversedPath(g, p);
      assert Connected(g, p[0], p[|p| - 1]) && Connected(g, r[0], r[|r| - 1]);
    }
  }

  lemma PathMakesCycle(g: Graph, g': Graph, dest: int, src: int)
    requires Connected(g, dest, src) && dest != src && !Linked(g, dest, src)
    requires g'.adj.Keys == g.adj.Keys && Linked(g', src, dest) && forall u, v :: Linked(g, u, v) ==> Linked(g', u, v)
    ensures HasCycle(g')
  {
    var p :| IsPath(g, p) && p[0] == dest && p[|p| - 1] == src;
    var q := Shortened(g, p);
    forall i | 0 <= i < |q| - 1
      ensures Linked(g', q[i], q[i + 1])
    {
      assert Linked(g, q[i], q[i + 1]);
    }
    assert |q| >= 2 ==> Linked(g, q[0], q[0 + 1]);
    assert IsCycle(g', q);
  }

  lemma NewLinkOnCycle(g: Graph, g': Graph, c: seq<int>) returns (i: nat)
    requires IsCycle(g', c) && !IsCycle(g, c) && g'.adj.Keys == g.adj.Keys
    ensures i < |c| && !Linked(g, c[i], Next(c, i)) && Linked(g', c[i], Next(c, i))
  {
    if !Linked(g, c[|c| - 1], c[0]) {
      i := |c| - 1;
    } else {
      i :| 0 <= i < |c| - 1 && !Linked(g, c[i], c[i + 1]);
      assert Linked(g', c[i], c[i + 1]);
    }
  }
}
