/** Which device the loop search names after a new link in a network without loops, and so whether the switch
    that has reported the link is the one that is told to close a port. */
module LoopNames {
  import opened Topology
  import opened LoopSearch
  import opened LoopScan

  /** A new link between two different devices of a network without loops. */
  ghost predicate NewLink(g: Graph, dest: int, src: int) {
    && Simple(g) && !HasCycle(g)
    && dest in g.adj && src in g.adj && dest != src && !Linked(g, dest, src)
  }

  ghost function Members(s: seq<int>): iset<int> {
    iset y | y in s
  }

  ghost function Off(x: int): iset<int> {
    Beyond([x])
  }

  // ---------------------------------------------------------------- the one loop

  lemma NewLinkKeeps(g: Graph, dest: int, src: int)
    requires NewLink(g, dest, src)
    ensures Simple(AddLink(g, dest, src)) && AddLink(g, dest, src).adj.Keys == g.adj.Keys
    ensures forall u, v :: Linked(AddLink(g, dest, src), u, v)
                      <==> (Linked(g, u, v) || (u == dest && v == src) || (u == src && v == dest))
  {
    AddLinkKeepsSimple(g, dest, src);
    LinksAfterAddLink(g, dest, src);
  }

  /** Every loop runs over the new link, and the rest of it joins the two ends in the old network. */
  lemma LoopHasNewLink(g: Graph, dest: int, src: int, c: seq<int>)
    requires NewLink(g, dest, src) && IsCycle(AddLink(g, dest, src), c)
    ensures dest in c && src in c && Joined(g, Members(c), dest, src)
  {
    var g' := AddLink(g, dest, src);
    NewLinkKeeps(g, dest, src);
    assert !IsCycle(g, c);
    var i := NewLinkOnCycle(g, g', c);
    var p := RotatedCycle(g, g', c, i);
    JoinedBack(g, Members(c), Next(c, i), c[i]);
  }

  /** The old network joins what the new one joins past `x`, if it joins the ends of the new link past `x`. */
  lemma Detour(g: Graph, dest: int, src: int, x: int, u: int, w: int)
    requires NewLink(g, dest, src) && Joined(g, Off(x), dest, src)
    requires Joined(AddLink(g, dest, src), Off(x), u, w)
    ensures Joined(g, Off(x), u, w)
  {
    var g' := AddLink(g, dest, src);
    NewLinkKeeps(g, dest, src);
    JoinedBack(g, Off(x), dest, src);
    forall a, b | a in Off(x) && b in Off(x) && Linked(g', a, b)
      ensures Joined(g, Off(x), a, b)
    {
      if Linked(g, a, b) {
        JoinedLink(g, Off(x), a, b);
      }
    }
    var p :| IsPath(g', p) && p[0] == u && p[|p| - 1] == w && forall y :: y in p ==> y in Off(x);
    JoinedByLinks(g', Off(x), g, p);
  }

  /** The old network does not join the ends of the new link past a device of the loop. */
  lemma LoopIsNeeded(g: Graph, dest: int, src: int, c: seq<int>, x: int)
    requires NewLink(g, dest, src) && IsCycle(AddLink(g, dest, src), c) && x in c && x != dest && x != src
    ensures !Joined(g, Off(x), dest, src)
  {
    var g' := AddLink(g, dest, src);
    NewLinkKeeps(g, dest, src);
    if Joined(g, Off(x), dest, src) {
      var u, w := CycleNeighbours(g', c, x);
      assert Linked(g', x, x) ==> false;
      CycleJoined(g', c, x, u, w);
      JoinedWider(g', Rest(c, x), g', Off(x), u, w);
      Detour(g, dest, src, x, u, w);
      var d := TwoWays(g, Off(x), x, u, w);
    }
  }

  /** There is one loop only. */
  lemma SameLoop(g: Graph, dest: int, src: int, c: seq<int>, d: seq<int>, x: int)
    requires NewLink(g, dest, src) && x in c
    requires IsCycle(AddLink(g, dest, src), c) && IsCycle(AddLink(g, dest, src), d)
    ensures x in d
  {
    LoopHasNewLink(g, dest, src, d);
    if x !in d {
      JoinedWider(g, Members(d), g, Off(x), dest, src);
      LoopIsNeeded(g, dest, src, c, x);
    }
  }

  /** A device is on the loop that a new link closes exactly when it is one of the ends or on every path
      that joined them before. */
  lemma OnNewLoop(g: Graph, dest: int, src: int, x: int)
    requires NewLink(g, dest, src) && Connected(g, dest, src)
    ensures (exists c :: IsCycle(AddLink(g, dest, src), c) && x in c)
       <==> x == dest || x == src || !Joined(g, Off(x), dest, src)
  {
    LinkClosesCycle(g, dest, src);
    var c :| IsCycle(AddLink(g, dest, src), c);
    LoopHasNewLink(g, dest, src, c);
    if x !in c {
      JoinedWider(g, Members(c), g, Off(x), dest, src);
    }
    forall d | IsCycle(AddLink(g, dest, src), d) && x in d && x != dest && x != src
      ensures !Joined(g, Off(x), dest, src)
    {
      LoopIsNeeded(g, dest, src, d, x);
    }
  }

  /** The last step of a path. */
  lemma LastStep(g: Graph, area: iset<int>, a: int, b: int) returns (y: int)
    requires Closed(g) && Joined(g, area, a, b) && a != b
    ensures y != b && y in area && Linked(g, y, b) && Joined(g, area - iset{b}, a, y)
  {
    var p :| IsPath(g, p) && p[0] == a && p[|p| - 1] == b && forall x :: x in p ==> x in area;
    var q := Shortened(g, p);
    var n := |q| - 2;
    y := q[n];
    assert Linked(g, q[n], q[n + 1]);
    PathCut(g, q, 0, n);
    var t := q[..n + 1];
    forall x | x in t
      ensures x in area - iset{b}
    {
      var i :| 0 <= i < |t| && t[i] == x;
      assert q[i] in q;
    }
    assert t[0] == a && t[|t| - 1] == y && y in t;
  }

  /** The loop is entered from a device at one place only. */
  lemma EntranceIsOne(g: Graph, dest: int, src: int, c: seq<int>, d: seq<int>, root: int, v: int, w: int)
    requires NewLink(g, dest, src) && IsCycle(AddLink(g, dest, src), c) && IsCycle(AddLink(g, dest, src), d)
    requires Entrance(AddLink(g, dest, src), c, root, v) && Entrance(AddLink(g, dest, src), d, root, w)
    ensures v == w
  {
    var g' := AddLink(g, dest, src);
    NewLinkKeeps(g, dest, src);
    forall x
      ensures x in c <==> x in d
    {
      if x in c {
        SameLoop(g, dest, src, c, d, x);
      }
      if x in d {
        SameLoop(g, dest, src, d, c, x);
      }
    }
    assert Until(d, w) == Until(c, w);
    JoinedStarts(g', Until(c, v), root, v);
    JoinedStarts(g', Until(c, w), root, w);
    if v != w {
      var y := EntersFrom(g', c, root, v);
      var u, other := CycleNeighbours(g', c, v);
      PastEntrance(g', c, root, y, v, w, u);
      var e := TwoWays(g', Off(v), v, y, u);
      SameLoop(g, dest, src, e, c, y);
    }
  }

  /** The device outside the loop from which it is entered. */
  lemma EntersFrom(g: Graph, c: seq<int>, root: int, v: int) returns (y: int)
    requires Simple(g) && Entrance(g, c, root, v) && root != v
    ensures y !in c && Linked(g, v, y) && Joined(g, Beyond(c), y, root)
  {
    y := LastStep(g, Until(c, v), root, v);
    assert Linked(g, v, y);
    JoinedWider(g, Until(c, v) - iset{v}, g, Beyond(c), root, y);
    JoinedBack(g, Beyond(c), root, y);
  }

  /** From there another entrance and the rest of the loop can be reached past the first one. */
  lemma PastEntrance(g: Graph, c: seq<int>, root: int, y: int, v: int, w: int, u: int)
    requires Simple(g) && IsCycle(g, c) && v in c && w != v && u in c && u != v
    requires Joined(g, Beyond(c), y, root) && Entrance(g, c, root, w)
    ensures Joined(g, Off(v), y, u)
  {
    JoinedStarts(g, Beyond(c), y, root);
    JoinedWider(g, Beyond(c), g, Off(v), y, root);
    JoinedStarts(g, Until(c, w), root, w);
    JoinedWider(g, Until(c, w), g, Off(v), root, w);
    CycleJoined(g, c, v, w, u);
    JoinedStarts(g, Rest(c, v), w, u);
    JoinedWider(g, Rest(c, v), g, Off(v), w, u);
    JoinedOn(g, Off(v), y, root, w);
    JoinedOn(g, Off(v), y, w, u);
  }

  // ---------------------------------------------------------------- what the searches leave behind

  lemma ConnectedOn(g: Graph, area: iset<int>, a: int, b: int, c: int)
    requires Connected(g, a, b) && Joined(g, area, b, c)
    ensures Connected(g, a, c)
  {
    var p :| IsPath(g, p) && p[0] == a && p[|p| - 1] == b;
    assert forall x :: x in p ==> x in Beyond([]);
    JoinedStarts(g, area, b, c);
    JoinedWider(g, area, g, Beyond([]), b, c);
    JoinedOn(g, Beyond([]), a, b, c);
  }

  lemma Grown(base: seq<int>, s: seq<int>)
    requires base <= s
    ensures Members(base) <= Members(s) && Since(base, s) <= Members(s)
  {
    assert s[..|base|] == base;
  }

  /** The discovered devices contain every loop; those in the component of `dest` are joined to it by discovered
      devices, and the others are in components that have been discovered as a whole. */
  ghost predicate Anchored(g: Graph, s: seq<int>, dest: int) {
    && dest in s
    && (forall c, x :: IsCycle(g, c) && x in c ==> x in s)
    && (forall w :: w in s && Connected(g, dest, w) ==> Joined(g, Members(s), w, dest))
    && (forall w, u :: w in s && !Connected(g, dest, w) && Linked(g, w, u) ==> u in s)
  }

  /** A path into the discovered devices enters them by some link. */
  lemma {:induction false} Crossing(g: Graph, base: seq<int>, p: seq<int>) returns (a: int, b: int)
    requires IsPath(g, p) && p[0] !in base && p[|p| - 1] in base
    ensures Joined(g, Beyond(base), p[0], a) && Linked(g, a, b) && b in base
    decreases |p|
  {
    var n := |p| - 1;
    var t := p[..n];
    PathCut(g, p, 0, n - 1);
    assert Linked(g, p[n - 1], p[n - 1 + 1]);
    if t[n - 1] in base {
      a, b := Crossing(g, base, t);
    } else if x :| x in t && x in base {
      var i :| 0 <= i < n && p[i] == x;
      PathCut(g, p, 0, i);
      a, b := Crossing(g, base, p[..i + 1]);
    } else {
      a, b := p[n - 1], p[n];
      assert t[0] == p[0] && t[|t| - 1] == a && forall y :: y in t ==> y in Beyond(base);
    }
  }

  /** What a search newly discovers is joined to `dest`, or the component has been discovered as a whole. */
  lemma NewIsAnchored(g: Graph, base: seq<int>, root: int, dest: int, w: int)
    requires Simple(g) && Anchored(g, base, dest) && Distinct(base) && root in g.adj && root !in base
    requires w in Search(g, base, root).seen && w !in base
    ensures var s := Search(g, base, root).seen;
            && (Connected(g, dest, w) ==> Joined(g, Members(s), w, dest))
            && (!Connected(g, dest, w) ==> forall u :: Linked(g, w, u) ==> u in s)
  {
    var o := Search(g, base, root);
    var s := o.seen;
    assert base <= base + [root] <= s;
    Grown(base, s);
    SearchStaysInRegion(g, base, root);
    hide Search, Anchored;
    if o.report != 0 {
      var x := ContactOf(g, base, root, dest);
      ByContact(g, base, s, root, dest, w, x, o.report);
    } else {
      SilentSearch(g, base, root);
      if Connected(g, dest, w) {
        var a, b := CrossingFrom(g, base, dest, w);
        JoinedOn(g, Beyond(base), root, w, a);
        JoinedStarts(g, Beyond(base), w, a);
        ByContact(g, base, s, root, dest, w, a, b);
      } else {
        forall u | Linked(g, w, u)
          ensures u in s
        {
          if u !in base {
            JoinedLink(g, Beyond(base), w, u);
            JoinedOn(g, Beyond(base), root, w, u);
          } else {
            assert u in Members(base);
          }
        }
      }
    }
  }

  /** A search that reports does so at a link to a device that was discovered before. */
  lemma ContactOf(g: Graph, base: seq<int>, root: int, dest: int) returns (x: int)
    requires Simple(g) && Anchored(g, base, dest) && Distinct(base) && root in g.adj && root !in base
    requires Search(g, base, root).report != 0
    ensures var o := Search(g, base, root);
            o.report in base && x in o.seen && x !in base && x != root && Linked(g, x, o.report)
  {
    ReportIsEvidence(g, base, root);
    var o := Search(g, base, root);
    forall c | IsCycle(g, c)
      ensures c[0] in base
    {
      assert c[0] in c;
    }
    x :| x in o.seen && x !in base && x != root && Linked(g, x, o.report);
  }

  lemma CrossingFrom(g: Graph, base: seq<int>, dest: int, w: int) returns (a: int, b: int)
    requires Simple(g) && dest in base && w !in base && Connected(g, dest, w)
    ensures Joined(g, Beyond(base), w, a) && Linked(g, a, b) && b in base
  {
    var p :| IsPath(g, p) && p[0] == dest && p[|p| - 1] == w;
    var q := ReversedPath(g, p);
    a, b := Crossing(g, base, q);
  }

  /** A search that has touched `base` discovers devices of the component of `dest`. */
  lemma ByContact(g: Graph, base: seq<int>, s: seq<int>, root: int, dest: int, w: int, x: int, b: int)
    requires Simple(g) && Anchored(g, base, dest) && base <= s && AllReached(g, base, root, s)
    requires w in s && w !in base && x in s && x !in base && Linked(g, x, b) && b in base
    ensures Connected(g, dest, w) && Joined(g, Members(s), w, dest)
  {
    Grown(base, s);
    assert Linked(g, b, x);
    assert Connected(g, dest, b) && Joined(g, Members(base), b, dest);
    hide Anchored;
    var area := Members(s);
    JoinedStarts(g, Since(base, s), root, w);
    JoinedStarts(g, Since(base, s), root, x);
    JoinedWider(g, Since(base, s), g, area, root, w);
    JoinedWider(g, Since(base, s), g, area, root, x);
    JoinedBack(g, area, root, w);
    JoinedOn(g, area, w, root, x);
    assert b in Members(base);
    JoinedLink(g, area, x, b);
    JoinedOn(g, area, w, x, b);
    JoinedBack(g, area, w, b);
    ConnectedOn(g, area, dest, b, w);
    JoinedStarts(g, Members(base), b, dest);
    JoinedWider(g, Members(base), g, area, b, dest);
    JoinedOn(g, area, w, b, dest);
  }

  /** Searches keep what has been discovered anchored. */
  lemma SearchKeepsAnchored(g: Graph, base: seq<int>, root: int, dest: int)
    requires Simple(g) && Anchored(g, base, dest) && Distinct(base) && root in g.adj && root !in base
    ensures Anchored(g, Search(g, base, root).seen, dest)
  {
    var s := Search(g, base, root).seen;
    assert base <= base + [root] <= s;
    Grown(base, s);
    assert forall x :: x in base ==> x in Members(base) && x in Members(s) && x in s;
    forall w | w in s
      ensures Connected(g, dest, w) ==> Joined(g, Members(s), w, dest)
      ensures !Connected(g, dest, w) ==> forall u :: Linked(g, w, u) ==> u in s
    {
      if w !in base {
        NewIsAnchored(g, base, root, dest, w);
      } else if Connected(g, dest, w) {
        JoinedStarts(g, Members(base), w, dest);
        JoinedWider(g, Members(base), g, Members(s), w, dest);
      }
    }
  }

  /** The first search that reports names the entrance of the loop and discovers all of it. */
  lemma FirstFindsLoop(g: Graph, base: seq<int>, root: int) returns (c: seq<int>)
    requires Simple(g) && root in g.adj && root !in base && Distinct(base) && NeighbourClosed(g, base)
    requires Search(g, base, root).report != 0
    ensures IsCycle(g, c) && Entrance(g, c, root, Search(g, base, root).report)
    ensures forall x :: x in c ==> x in Search(g, base, root).seen && x !in base
  {
    ReportIsEvidence(g, base, root);
    SearchStaysInRegion(g, base, root);
    RegionIsComponent(g, base, root);
    hide Search, Entrance, AllReached, NeighbourClosed, Simple;
    var o := Search(g, base, root);
    c :| IsCycle(g, c) && Entrance(g, c, root, o.report) && forall x :: x in c ==> x in o.seen && x !in base;
  }

  lemma FirstIsAnchored(g: Graph, dest: int, src: int, base: seq<int>, root: int)
    requires NewLink(g, dest, src) && Simple(AddLink(g, dest, src)) && root in AddLink(g, dest, src).adj
    requires NeighbourClosed(AddLink(g, dest, src), base) && root !in base && Distinct(base) && dest !in base
    requires Search(AddLink(g, dest, src), base, root).report != 0
    ensures Anchored(AddLink(g, dest, src), Search(AddLink(g, dest, src), base, root).seen, dest)
    ensures dest in Search(AddLink(g, dest, src), base, root).seen
  {
    var g' := AddLink(g, dest, src);
    var s := Search(g', base, root).seen;
    var c := FirstFindsLoop(g', base, root);
    SearchStaysInRegion(g', base, root);
    LoopHasNewLink(g, dest, src, c);
    assert base <= base + [root] <= s;
    hide Search, Simple, AddLink, NewLink, IsCycle, AllReached, NeighbourClosed;
    forall d, x | IsCycle(g', d) && x in d
      ensures x in s
    {
      SameLoop(g, dest, src, d, c, x);
    }
    forall w | w in s
      ensures Connected(g', dest, w) ==> Joined(g', Members(s), w, dest)
      ensures !Connected(g', dest, w) ==> forall u :: Linked(g', w, u) ==> u in s
    {
      if w in base {
        OldIsApart(g', base, s, dest, w);
      } else {
        JoinedThroughRoot(g', base, s, root, dest, w);
      }
    }
  }

  lemma OldIsApart(g: Graph, base: seq<int>, s: seq<int>, dest: int, w: int)
    requires Simple(g) && NeighbourClosed(g, base) && w in base && dest !in base && base <= s
    ensures !Connected(g, dest, w) && forall u :: Linked(g, w, u) ==> u in s
  {
    RegionIsComponent(g, base, dest);
    if Connected(g, dest, w) {
      JoinedStarts(g, Beyond(base), dest, w);
    }
    Grown(base, s);
    assert forall u :: u in base ==> u in Members(base) && u in Members(s);
  }

  lemma JoinedThroughRoot(g: Graph, base: seq<int>, s: seq<int>, root: int, dest: int, w: int)
    requires Simple(g) && base <= s && AllReached(g, base, root, s)
    requires w in s && w !in base && dest in s && dest !in base
    ensures Joined(g, Members(s), w, dest) && Connected(g, dest, w)
  {
    var area := Members(s);
    Grown(base, s);
    JoinedStarts(g, Since(base, s), root, w);
    JoinedWider(g, Since(base, s), g, area, root, w);
    JoinedWider(g, Since(base, s), g, area, root, dest);
    JoinedBack(g, area, root, w);
    JoinedOn(g, area, w, root, dest);
    JoinedBack(g, area, w, dest);
  }

  /** While `dest` is not discovered no search has reported; once it is, what is discovered is anchored, and
      some search has reported. */
  lemma {:induction false} SlotsAnchored(g: Graph, dest: int, src: int, n: nat)
    requires NewLink(g, dest, src) && Connected(g, dest, src)
    requires Simple(AddLink(g, dest, src)) && n <= |AddLink(g, dest, src).order|
    ensures var g' := AddLink(g, dest, src);
            if dest in ScanSlots(g', n).seen then
              Anchored(g', ScanSlots(g', n).seen, dest) && !SilentBefore(g', n)
            else SilentBefore(g', n)
  {
    hide Search, Reports, SilentBefore, Anchored, AddLink, NewLink, Distinct, Connected, OneEarlier;
    var g' := AddLink(g, dest, src);
    if n == 0 {
      NoneBefore(g');
    } else {
      SlotsAnchored(g, dest, src, n - 1);
      AfterOneSlot(g', n);
      var base, root := ScanSlots(g', n - 1).seen, g'.order[n - 1];
      hide ScanSlots, Simple, Closed;
      if SilentBefore(g', n) {
        SilentIsUndiscovered(g, dest, src, n);
      } else if root !in base {
        if dest in base {
          SearchKeepsAnchored(g', base, root, dest);
        } else {
          SilentScanSlots(g', n - 1);
          FirstIsAnchored(g, dest, src, base, root);
        }
      }
    }
  }

  lemma NoneBefore(g: Graph)
    requires Closed(g)
    ensures SilentBefore(g, 0)
  {
  }

  lemma AfterOneSlot(g: Graph, n: nat)
    requires Closed(g) && 0 < n <= |g.order|
    ensures var base, root := ScanSlots(g, n - 1).seen, g.order[n - 1];
            && root in g.adj && Distinct(base)
            && ScanSlots(g, n).seen == (if root in base then base else Search(g, base, root).seen)
            && (Reports(g, n - 1) <==> root !in base && Search(g, base, root).report != 0)
            && (SilentBefore(g, n) <==> SilentBefore(g, n - 1) && !Reports(g, n - 1))
  {
    hide Search;
    ScanSlotsDistinct(g, n - 1);
    assert g.order[n - 1] in g.order;
  }

  lemma SilentIsUndiscovered(g: Graph, dest: int, src: int, n: nat)
    requires NewLink(g, dest, src) && Connected(g, dest, src)
    requires Simple(AddLink(g, dest, src)) && n <= |AddLink(g, dest, src).order|
    requires SilentBefore(AddLink(g, dest, src), n)
    ensures dest !in ScanSlots(AddLink(g, dest, src), n).seen
  {
    var g' := AddLink(g, dest, src);
    var s := ScanSlots(g', n).seen;
    SilentScanSlots(g', n);
    if dest in s {
      LinkClosesCycle(g, dest, src);
      var c :| IsCycle(g', c);
      LoopHasNewLink(g, dest, src, c);
      forall x | x in c
        ensures x in s
      {
        if x !in s {
          RegionIsComponent(g', s, x);
          LoopStaysOutside(g', s, c, x, dest);
        }
      }
      var i := TwoEarlier(g', s, c);
    }
  }

  lemma LoopStaysOutside(g: Graph, s: seq<int>, c: seq<int>, x: int, y: int)
    requires Simple(g) && IsCycle(g, c) && x in c && y in c && NeighbourClosed(g, s) && x !in s
    ensures y !in s
  {
    var d := Rotated(g, c, x);
    PathAvoidsClosed(g, s, d);
  }

  // ---------------------------------------------------------------- the device that is named

  /** From `root` the search comes, elsewhere than at the root itself, upon `v`, which was discovered before. */
  ghost predicate Contact(g: Graph, base: seq<int>, root: int, v: int) {
    v in base && exists x :: Reaches(g, base, root, x) && x != root && Linked(g, x, v)
  }

  /** Some search is started among neighbours; if none before the last such search has reported, that one does. */
  lemma SomeSearchStarts(g: Graph)
    requires Simple(g) && HasCycle(g)
    ensures var r := LastStart(g, |g.order|); r >= 0 && (SilentBefore(g, r) ==> Reports(g, r))
  {
    ScanFindsLoop(g);
    hide Simple, HasCycle, Search, Visit;
    var i :| 0 <= i < |g.order| && Reports(g, i);
    ReportingStarts(g, i);
    hide Reports, StartsAmongNeighbours;
  }

  lemma EmptyIsSilent(g: Graph, base: seq<int>, root: int)
    requires Closed(g) && root in g.adj
    ensures g.adj[root] == [] ==> Search(g, base, root).report == 0
  {
  }

  lemma ReportingStarts(g: Graph, i: nat)
    requires Closed(g) && i < |g.order| && Reports(g, i)
    ensures StartsAmongNeighbours(g, i)
  {
    hide Search, ScanSlots;
    var root := g.order[i];
    assert root in g.order;
    EmptyIsSilent(g, ScanSlots(g, i).seen, root);
  }

  /** What is known about the last search that starts among neighbours. */
  lemma LastSearch(g: Graph, dest: int, src: int)
    requires NewLink(g, dest, src) && Connected(g, dest, src) && Simple(AddLink(g, dest, src))
    ensures var g' := AddLink(g, dest, src);
            var r := LastStart(g', |g'.order|);
            && r >= 0
            && (var base, root := ScanSlots(g', r).seen, g'.order[r];
                && root in g'.adj && root !in base && Distinct(base)
                && LoopExists(g') == Search(g', base, root).report
                && (SilentBefore(g', r) <==> dest !in base)
                && (if dest in base then Anchored(g', base, dest)
                    else NeighbourClosed(g', base) && Search(g', base, root).report != 0))
  {
    var g' := AddLink(g, dest, src);
    var r := LastStart(g', |g'.order|);
    LinkClosesCycle(g, dest, src);
    SomeSearchStarts(g');
    LastStartDecides(g', |g'.order|);
    ScanSlotsDistinct(g', r);
    SlotsAnchored(g, dest, src, r);
    if SilentBefore(g', r) {
      SilentScanSlots(g', r);
    }
  }

  /** With the loop discovered before, the search names exactly the device that it comes upon. */
  lemma NamesContact(g: Graph, base: seq<int>, root: int, dest: int, v: int)
    requires Simple(g) && Anchored(g, base, dest) && Distinct(base) && root in g.adj && root !in base && v in g.adj
    ensures Search(g, base, root).report == v <==> Contact(g, base, root, v)
  {
    var w := Search(g, base, root).report;
    if w != 0 {
      var x' := ContactOf(g, base, root, dest);
      SearchStaysInRegion(g, base, root);
      assert Contact(g, base, root, w);
    }
    if Contact(g, base, root, v) {
      var x :| Reaches(g, base, root, x) && x != root && Linked(g, x, v);
      SearchExactly(g, base, root);
      assert RegionTouches(g, base, root);
      ContactIsOne(g, base, root, dest, v, w);
    }
  }

  /** A search comes upon one discovered device at most: a second one would lie on another loop. */
  lemma ContactIsOne(g: Graph, base: seq<int>, root: int, dest: int, v: int, w: int)
    requires Simple(g) && Anchored(g, base, dest) && Contact(g, base, root, v) && Contact(g, base, root, w)
    ensures v == w
  {
    var x :| Reaches(g, base, root, x) && Linked(g, x, v);
    var y :| Reaches(g, base, root, y) && Linked(g, y, w);
    JoinedStarts(g, Beyond(base), root, x);
    JoinedStarts(g, Beyond(base), root, y);
    if v != w {
      JoinedInside(g, base, root, dest, x, w, v);
      var z := LastStep(g, Members(base), w, v);
      PastContact(g, base, root, x, y, v, w, z);
      var c := TwoWays(g, Off(v), v, x, z);
    }
  }

  lemma JoinedInside(g: Graph, base: seq<int>, root: int, dest: int, x: int, w: int, v: int)
    requires Simple(g) && Anchored(g, base, dest) && Contact(g, base, root, v) && Contact(g, base, root, w)
    ensures Joined(g, Members(base), w, v)
  {
    InComponent(g, base, root, dest, v);
    InComponent(g, base, root, dest, w);
    JoinedBack(g, Members(base), v, dest);
    JoinedOn(g, Members(base), w, dest, v);
  }

  lemma InComponent(g: Graph, base: seq<int>, root: int, dest: int, v: int)
    requires Simple(g) && Anchored(g, base, dest) && Contact(g, base, root, v)
    ensures Joined(g, Members(base), v, dest)
  {
    var x :| Reaches(g, base, root, x) && Linked(g, x, v);
    JoinedStarts(g, Beyond(base), root, x);
    assert Linked(g, v, x);
  }

  lemma PastContact(g: Graph, base: seq<int>, root: int, x: int, y: int, v: int, w: int, z: int)
    requires Simple(g) && v in base && w in base && v != w
    requires Reaches(g, base, root, x) && Reaches(g, base, root, y) && Linked(g, y, w)
    requires Joined(g, Members(base) - iset{v}, w, z)
    ensures Joined(g, Off(v), x, z)
  {
    JoinedBack(g, Beyond(base), root, x);
    JoinedOn(g, Beyond(base), x, root, y);
    JoinedStarts(g, Beyond(base), x, y);
    JoinedWider(g, Beyond(base), g, Off(v), x, y);
    JoinedLink(g, Off(v), y, w);
    JoinedStarts(g, Members(base) - iset{v}, w, z);
    JoinedWider(g, Members(base) - iset{v}, g, Off(v), w, z);
    JoinedOn(g, Off(v), x, y, w);
    JoinedOn(g, Off(v), x, w, z);
  }

  /** The device that is named after a new link that closes a loop. If an earlier search has discovered `dest`, and with
      it the loop, it is the device at which the last search comes upon what was discovered; otherwise it is the
      device at which the loop is entered from the root of the last search. */
  ghost predicate Names(g: Graph, dest: int, src: int, v: int)
    requires Closed(AddLink(g, dest, src))
  {
    var g' := AddLink(g, dest, src);
    var r := LastStart(g', |g'.order|);
    && r >= 0
    && (var base, root := ScanSlots(g', r).seen, g'.order[r];
        if dest in base then Contact(g', base, root, v) else exists c :: IsCycle(g', c) && Entrance(g', c, root, v))
  }

  lemma NamedExactly(g: Graph, dest: int, src: int, v: int)
    requires NewLink(g, dest, src) && Connected(g, dest, src) && v in g.adj
    ensures Closed(AddLink(g, dest, src)) && (LoopExists(AddLink(g, dest, src)) == v <==> Names(g, dest, src, v))
  {
    var g' := AddLink(g, dest, src);
    NewLinkKeeps(g, dest, src);
    LastSearch(g, dest, src);
    var r := LastStart(g', |g'.order|);
    var base, root := ScanSlots(g', r).seen, g'.order[r];
    hide ScanSlots, LastStart, LoopExists, Search, Contact;
    if dest in base {
      NamesContact(g', base, root, dest, v);
    } else {
      var d := FirstFindsLoop(g', base, root);
      forall c | IsCycle(g', c) && Entrance(g', c, root, v)
        ensures v == LoopExists(g')
      {
        EntranceIsOne(g, dest, src, c, d, root, v, LoopExists(g'));
      }
    }
  }

  /** The condition under which the switch that has reported the link is named. If an earlier search has
      discovered it: the last search comes upon it. Otherwise: in the old network, every path from the root of the last
      search to the other end of the link passes it. */
  ghost predicate NamesArrival(g: Graph, dest: int, src: int)
    requires Closed(AddLink(g, dest, src))
  {
    var g' := AddLink(g, dest, src);
    var r := LastStart(g', |g'.order|);
    && r >= 0
    && (var base, root := ScanSlots(g', r).seen, g'.order[r];
        if dest in base then Contact(g', base, root, dest) else !Joined(g, Off(dest), root, src))
  }

  /** After a report by `dest` on a network without loops: the result names `dest` exactly when the
      link is new, closes a loop, and the condition holds. */
  lemma ArrivalIsNamed(g: Graph, dest: int, src: int)
    requires Simple(g) && !HasCycle(g) && dest in g.adj && src in g.adj && dest != src
    ensures Closed(AddLink(g, dest, src))
    ensures LoopExists(AddLink(g, dest, src)) == dest
       <==> !Linked(g, dest, src) && Connected(g, dest, src) && NamesArrival(g, dest, src)
  {
    var g' := AddLink(g, dest, src);
    AddLinkKeepsSimple(g, dest, src);
    assert dest != 0;
    if Linked(g, dest, src) {
      KnownLink(g, dest, src);
      LoopExistsIsSound(g);
    } else if !Connected(g, dest, src) {
      NewLinkIsReported(g, dest, src);
    } else {
      NamedExactly(g, dest, src, dest);
      LastSearch(g, dest, src);
      var r := LastStart(g', |g'.order|);
      var base, root := ScanSlots(g', r).seen, g'.order[r];
      hide ScanSlots, LastStart, LoopExists, Search, Contact;
      if dest !in base {
        var c := FirstFindsLoop(g', base, root);
        LoopHasNewLink(g, dest, src, c);
        EntranceAtDest(g, dest, src, c, root, LoopExists(g'));
      }
    }
  }

  /** As long as no search before the last one has reported, the condition is about the old network alone: every
      path from the root to the other end passes the switch that has reported the link. */
  lemma UndisturbedArrival(g: Graph, dest: int, src: int)
    requires NewLink(g, dest, src) && Connected(g, dest, src)
    ensures var g' := AddLink(g, dest, src);
            && Closed(g') && LastStart(g', |g'.order|) >= 0
            && (SilentBefore(g', LastStart(g', |g'.order|))
                ==> (LoopExists(g') == dest <==> !Joined(g, Off(dest), g.order[LastStart(g', |g'.order|)], src)))
  {
    NewLinkKeeps(g, dest, src);
    LastSearch(g, dest, src);
    ArrivalIsNamed(g, dest, src);
  }

  lemma KnownLink(g: Graph, dest: int, src: int)
    requires Simple(g) && Linked(g, dest, src)
    ensures AddLink(g, dest, src) == g
  {
    assert Linked(g, src, dest);
    assert AddLink(g, dest, src).adj == g.adj;
  }

  /** The loop is entered at `dest` exactly when the root was not joined to `src` past `dest`. */
  lemma EntranceAtDest(g: Graph, dest: int, src: int, c: seq<int>, root: int, w: int)
    requires NewLink(g, dest, src) && IsCycle(AddLink(g, dest, src), c) && Entrance(AddLink(g, dest, src), c, root, w)
    ensures w == dest <==> !Joined(g, Off(dest), root, src)
  {
    var g' := AddLink(g, dest, src);
    NewLinkKeeps(g, dest, src);
    LoopHasNewLink(g, dest, src, c);
    JoinedStarts(g', Until(c, w), root, w);
    if w == dest {
      if Joined(g, Off(dest), root, src) {
        JoinedStarts(g, Off(dest), root, src);
        var y := EntersFrom(g', c, root, dest);
        JoinedStarts(g', Beyond(c), y, root);
        JoinedWider(g', Beyond(c), g', Off(dest), y, root);
        JoinedWider(g, Off(dest), g', Off(dest), root, src);
        JoinedOn(g', Off(dest), y, root, src);
        var e := TwoWays(g', Off(dest), dest, y, src);
        SameLoop(g, dest, src, e, c, y);
      }
    } else {
      JoinedWider(g', Until(c, w), g', Off(dest), root, w);
      CycleJoined(g', c, dest, w, src);
      JoinedStarts(g', Rest(c, dest), w, src);
      JoinedWider(g', Rest(c, dest), g', Off(dest), w, src);
      JoinedOn(g', Off(dest), root, w, src);
      JoinedWider(g', Off(dest), g, Off(dest), root, src);
    }
  }

  // ---------------------------------------------------------------- the wrong switch

  /** The devices 1-2-3, before the probe of 1 arrives at 3. */
  const CHAIN := Graph([1, 2, 3], map[1 := [2], 2 := [1, 3], 3 := [2]])

  /** Three switches join, and the links 1-2-3 are reported. */
  lemma ChainIsReached()
    ensures Leads(Joins([1, 2, 3]) + [Link(1, 2)] + [Link(2, 3)], CHAIN) && Admissible(CHAIN, Link(3, 1))
  {
    hide Leads, Joins, Listed;
    var fds := [1, 2, 3];
    SameRows(CHAIN.adj, [[2], [1, 3], [2]]);
    NoLinksYet(fds, [[], [], []]);
    LeadsOnListed(Joins(fds), fds, [[], [], []], 1, 2, [[2], [1], []]);
    LeadsOnListed(Joins(fds) + [Link(1, 2)], fds, [[2], [1], []], 2, 3, [[2], [1, 3], [2]]);
  }

  /** Device 3 has reported the link, and device 1 is named. */
  lemma OtherEndIsNamed()
    ensures Closed(AddLink(CHAIN, 3, 1)) && LoopExists(AddLink(CHAIN, 3, 1)) == 1
  {
    var g := AddLink(CHAIN, 3, 1);
    assert g.adj[1] == [2, 3] && g.adj[2] == [1, 3] && g.adj[3] == [2, 1];
    assert g.adj.Keys == {1, 2, 3};
    HeadTriangle(g);
    assert ScanSlots(g, 0) == Outcome(0, []);
    assert ScanSlots(g, 1) == Outcome(1, [1, 2, 3]);
    assert ScanSlots(g, 2) == Outcome(1, [1, 2, 3]);
    assert ScanSlots(g, 3) == Outcome(1, [1, 2, 3]);
  }
}
