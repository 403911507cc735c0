/** The select loop of controller.c over all connections: the network graph and the switches together,
    and one round of handling the sockets that were ready when the round began. */
module Round {
  import opened Bytes
  import opened Messages
  import opened Protocol
  import opened Topology
  import opened Wrappers
  import LoopNames
  import LoopSearch
  import Network
  import Switch

  type Conn = Switch.Switch

  function Buffers(s: Conn): set<object> {
    {s.readBuffer, s.writeBuffer, s.connectedPorts}
  }

  ghost predicate Disjoint(conns: seq<Conn>) {
    forall i, j :: 0 <= i < j < |conns| ==> conns[i] != conns[j] && Buffers(conns[i]) !! Buffers(conns[j])
  }

  lemma DisjointWith(conns: seq<Conn>, s: Conn)
    requires Disjoint(conns) && forall k :: 0 <= k < |conns| ==> conns[k] != s && Buffers(conns[k]) !! Buffers(s)
    ensures Disjoint(conns + [s])
  {
    hide Buffers;
  }

  /** `recv` can deliver `chunk`: to a connection that reads, input that the handlers can take. */
  predicate Deliverable(v: Switch.View, chunk: seq<Byte>) {
    1 <= |chunk| <= v.expected && if v.rw == Switch.Read then v.Readable(chunk, true) else v.Ordered()
  }

  /** The link that the connection reports when `chunk` is delivered. */
  function LinkOf(v: Switch.View, chunk: seq<Byte>): Option<Switch.Link>
    requires Deliverable(v, chunk)
  {
    if v.rw == Switch.Read then v.Reported(chunk) else None
  }

  /** The streams and the log after `chunk` has been delivered. */
  predicate HasRead(v: Switch.View, after: Switch.View, chunk: seq<Byte>, close: bool) {
    && after.received == v.received + chunk && after.sent == v.sent && after.stage == v.stage
    && after.log == if v.rw == Switch.Read && v.Completes(chunk) then v.log + [Exchange(v.Arrived(chunk), close)]
                    else v.log
  }

  lemma PortInRange(v: Switch.View, chunk: seq<Byte>)
    requires Deliverable(v, chunk)
    ensures LinkOf(v, chunk).Some? ==> LinkOf(v, chunk).value.port < MAX_PORTS
  {
  }

  /** The graph `g` has become `after` by a link that connection `i` has reported, and the command closes the
      port of the link at the switch that the loop search now names, if it names one. */
  ghost predicate Recorded(g: Graph, after: Graph, fds: seq<int>, i: nat, link: Option<Switch.Link>,
                           command: Network.Command) {
    if link.None? then command.NoCommand? && after == g
    else
      && i < |fds| && after == AddLink(g, fds[i], link.value.src) && Closed(after)
      && (command.NoCommand? <==> LoopSearch.LoopExists(after) == 0) && !command.NoSuchSwitch?
      && (command.ClosePort? ==> command.slot < |fds| && command.port == link.value.port
                                 && fds[command.slot] == LoopSearch.LoopExists(after))
  }

  /** Connection `i` has reported a link between two connected devices of a network without loops. The port at which the
      probe has come in is closed exactly when the link is new, closes a loop, and the loop search names the
      switch that has reported it; when the link closes a loop, an order for any switch is given exactly when
      that is the device named. */
  lemma ArrivalPortIsClosed(g: Graph, after: Graph, fds: seq<int>, i: nat, link: Switch.Link, command: Network.Command)
    requires Recorded(g, after, fds, i, Some(link), command) && Distinct(fds) && forall fd :: fd in fds ==> fd in g.adj
    requires Simple(g) && !HasCycle(g) && fds[i] != link.src && link.src as int in g.adj
    ensures Closed(AddLink(g, fds[i], link.src)) && (command.ClosePort? ==> command.port == link.port)
    ensures CloseAt(command, i)
       <==> !Linked(g, fds[i], link.src) && Connected(g, fds[i], link.src)
            && LoopNames.NamesArrival(g, fds[i], link.src)
    ensures !Linked(g, fds[i], link.src) && Connected(g, fds[i], link.src)
            ==> forall k :: 0 <= k < |fds| ==> (CloseAt(command, k) <==> LoopNames.Names(g, fds[i], link.src, fds[k]))
  {
    assert forall fd :: fd in fds ==> fd in g.order && fd != 0;
    hide LoopSearch.LoopExists, Closed, Simple, AddLink, Connected, LoopNames.NamesArrival, LoopNames.Names;
    LoopNames.ArrivalIsNamed(g, fds[i], link.src);
    if !Linked(g, fds[i], link.src) && Connected(g, fds[i], link.src) {
      forall k | 0 <= k < |fds|
        ensures CloseAt(command, k) <==> LoopNames.Names(g, fds[i], link.src, fds[k])
      {
        LoopNames.NamedExactly(g, fds[i], link.src, fds[k]);
      }
    }
  }

  /** The switches 1, 2 and 3 are linked 1-2-3, and the probe of 1 comes in at 3. Switch 1 is ordered to close
      the port, whose number is one of switch 3. */
  lemma OtherSwitchIsOrdered(after: Graph, link: Switch.Link, command: Network.Command)
    requires Recorded(LoopNames.CHAIN, after, [1, 2, 3], 2, Some(link), command) && link.src == 1
    ensures command == Network.ClosePort(0, link.port) && !CloseAt(command, 2)
  {
    LoopNames.OtherEndIsNamed();
  }

  predicate CloseAt(command: Network.Command, k: nat) {
    command.ClosePort? && command.slot == k
  }

  /** The command is for another connection than the one that is being handled. */
  predicate Elsewhere(command: Network.Command, i: nat, count: nat) {
    command.ClosePort? && command.slot != i && command.slot < count && 0 <= command.port < MAX_PORTS
  }

  function PassedOn(vs: seq<Switch.View>, command: Network.Command, i: nat): (r: seq<Switch.View>)
    ensures |r| == |vs|
  {
    if Elsewhere(command, i, |vs|) then vs[command.slot := vs[command.slot].Obeying(command.port)] else vs
  }

  /** Which connections are intact once the command has reached another connection. */
  function HealthPassedOn(h: seq<bool>, vs: seq<Switch.View>, command: Network.Command, i: nat): (r: seq<bool>)
    requires |h| == |vs|
    ensures |r| == |h|
  {
    if Elsewhere(command, i, |vs|) then h[command.slot := vs[command.slot].BetweenMessages()] else h
  }

  /** All connections before and after `chunk` has been delivered to connection `i`: it has read, a command has
      reached another one, and the rest is as before. */
  predicate TurnTaken(vs: seq<Switch.View>, h: seq<bool>, after: seq<Switch.View>, h': seq<bool>,
                      i: nat, chunk: seq<Byte>, command: Network.Command)
  {
    && |vs| == |h| == |after| && i < |vs|
    && (command.ClosePort? ==> command.slot < |vs| && 0 <= command.port < MAX_PORTS)
    && HasRead(vs[i], after[i], chunk, CloseAt(command, i))
    && after == PassedOn(vs, command, i)[i := after[i]]
    && h' == HealthPassedOn(h, vs, command, i)[i := vs[i].rw == Switch.Read]
  }

  lemma Passed(vs: seq<Switch.View>, h: seq<bool>, vs': seq<Switch.View>, h': seq<bool>, command: Network.Command,
               i: nat)
    requires |vs| == |h| && i < |vs|
    requires if Elsewhere(command, i, |vs|)
             then vs' == vs[command.slot := vs[command.slot].Obeying(command.port)]
                  && h' == h[command.slot := vs[command.slot].BetweenMessages()]
             else vs' == vs && h' == h
    ensures vs' == PassedOn(vs, command, i) && h' == HealthPassedOn(h, vs, command, i)
  {
  }

  lemma UnchangedAt(vs: seq<Switch.View>, h: seq<bool>, command: Network.Command, i: nat)
    requires |vs| == |h| && i < |vs|
    ensures PassedOn(vs, command, i)[i] == vs[i] && HealthPassedOn(h, vs, command, i)[i] == h[i]
  {
  }

  lemma Taken(vs: seq<Switch.View>, h: seq<bool>, vs': seq<Switch.View>, h': seq<bool>, after: seq<Switch.View>,
              h'': seq<bool>, i: nat, chunk: seq<Byte>, command: Network.Command)
    requires |vs| == |h| == |after| && i < |vs|
    requires command.ClosePort? ==> command.slot < |vs| && 0 <= command.port < MAX_PORTS
    requires vs' == PassedOn(vs, command, i) && h' == HealthPassedOn(h, vs, command, i) && vs'[i] == vs[i]
    requires HasRead(vs'[i], after[i], chunk, CloseAt(command, i)) && after == vs'[i := after[i]]
    requires h'' == h'[i := vs'[i].rw == Switch.Read]
    ensures TurnTaken(vs, h, after, h'', i, chunk, command)
  {
  }

  // ---------------------------------------------------------------- one round

  /** What `select` reports: the connections that can be read from and written to, the bytes that wait at the former,
      and the room there is at the latter. */
  datatype Selection = Selection(readable: set<nat>, writable: set<nat>, waiting: seq<seq<Byte>>, room: seq<nat>)

  /** What `recv` delivers of the bytes that wait. */
  function Delivered(expected: nat, waiting: seq<Byte>): seq<Byte> {
    if |waiting| < expected then waiting else waiting[..expected]
  }

  /** What `send` accepts of the bytes that wait. */
  function Accepted(v: Switch.View, room: nat): nat {
    if room < v.expected then room else v.expected
  }

  function Chunk(v: Switch.View, waiting: seq<Byte>): seq<Byte> {
    Delivered(v.expected, waiting)
  }

  /** An order that the turn of connection `giver` gives to another connection, and how it meets that one. */
  datatype Directive = Directive(giver: nat, target: nat, port: Word32, met: Switch.View)

  /** The target is between two messages and is not still to be read from in this round. */
  predicate Clean(d: Directive, readable: set<nat>) {
    d.met.BetweenMessages() && (d.target < d.giver || d.target !in readable)
  }

  function Issued(vs: seq<Switch.View>, command: Network.Command, i: nat): seq<Directive> {
    if Elsewhere(command, i, |vs|) then [Directive(i, command.slot, command.port, vs[command.slot])] else []
  }

  /** The device that a link comes from is connected. */
  predicate KnownIn(keys: set<int>, link: Option<Switch.Link>) {
    link.Some? ==> link.value.src as int in keys
  }

  /** The connections from `i` on, whose turn is still to come: those that have met an order are in `pending`,
      the others are as `select` has found them. */
  ghost predicate Due(vs: seq<Switch.View>, h: seq<bool>, i: nat, sel: Selection, keys: set<int>, pending: set<nat>) {
    && |vs| == |h| == |sel.waiting| == |sel.room| && AllWell(h)
    && (forall k :: k in pending ==> i <= k < |vs| && k in sel.readable && vs[k].Ordered())
    && (forall k :: i <= k < |vs| && k in sel.readable ==> sel.waiting[k] != [])
    && (forall k :: i <= k < |vs| && k in sel.readable && k !in pending ==> DueToRead(vs[k], sel.waiting[k], keys))
    && (forall k :: i <= k < |vs| && k in sel.writable ==> vs[k].rw == Switch.Write && sel.room[k] > 0)
  }

  predicate DueToRead(v: Switch.View, waiting: seq<Byte>, keys: set<int>) {
    v.rw == Switch.Read && Deliverable(v, Chunk(v, waiting)) && KnownIn(keys, LinkOf(v, Chunk(v, waiting)))
  }

  /** The orders so far that are not clean are those whose targets are pending. */
  ghost predicate Accounted(orders: seq<Directive>, pending: set<nat>, readable: set<nat>) {
    && (forall d :: d in orders ==> Clean(d, readable) || d.target in pending)
    && (forall k :: k in pending ==> Met(orders, k, readable))
  }

  ghost predicate Met(orders: seq<Directive>, k: nat, readable: set<nat>) {
    exists d :: d in orders && d.target == k && !Clean(d, readable)
  }

  ghost predicate AllClean(orders: seq<Directive>, readable: set<nat>) {
    forall d :: d in orders ==> Clean(d, readable)
  }

  predicate AllWell(h: seq<bool>) {
    forall k :: 0 <= k < |h| ==> h[k]
  }

  function StillPending(pending: set<nat>, i: nat, command: Network.Command, count: nat, readable: set<nat>): set<nat> {
    var stays := pending - {i};
    if Elsewhere(command, i, count) && command.slot > i && command.slot in readable then stays + {command.slot}
    else stays
  }

  /** The turn of a connection that is read from: either all is well and the rest of the round is still due, or a
      connection is spoiled and an order was not clean. */
  lemma ReadTurn(vs: seq<Switch.View>, h: seq<bool>, vs': seq<Switch.View>, h': seq<bool>, i: nat, sel: Selection,
                 keys: set<int>, pending: set<nat>, orders: seq<Directive>, chunk: seq<Byte>, command: Network.Command)
    requires Due(vs, h, i, sel, keys, pending) && Accounted(orders, pending, sel.readable)
    requires i < |vs| && i in sel.readable && TurnTaken(vs, h, vs', h', i, chunk, command)
    ensures var later, all := StillPending(pending, i, command, |vs|, sel.readable), orders + Issued(vs, command, i);
            if AllWell(h') then Due(vs', h', i + 1, sel, keys, later) && Accounted(all, later, sel.readable)
            else !AllClean(all, sel.readable)
  {
    hide Due, Accounted, TurnTaken, Clean, Issued, StillPending, AllClean;
    if AllWell(h') {
      WellTurn(vs, h, vs', h', i, sel, keys, pending, chunk, command);
      StillAccounted(vs, h, vs', h', i, sel, keys, pending, orders, chunk, command);
    } else {
      SpoiledTurn(vs, h, vs', h', i, sel, keys, pending, orders, chunk, command);
    }
  }

  lemma WellTurn(vs: seq<Switch.View>, h: seq<bool>, vs': seq<Switch.View>, h': seq<bool>, i: nat, sel: Selection,
                 keys: set<int>, pending: set<nat>, chunk: seq<Byte>, command: Network.Command)
    requires Due(vs, h, i, sel, keys, pending) && i < |vs| && i in sel.readable
    requires TurnTaken(vs, h, vs', h', i, chunk, command) && AllWell(h')
    ensures Due(vs', h', i + 1, sel, keys, StillPending(pending, i, command, |vs|, sel.readable))
  {
    hide DueToRead, HasRead;
    MetWell(vs, h, vs', h', i, chunk, command);
  }

  /** When all is well after a turn, its connection was reading, and an order met its target between messages. */
  lemma MetWell(vs: seq<Switch.View>, h: seq<bool>, vs': seq<Switch.View>, h': seq<bool>, i: nat, chunk: seq<Byte>,
                command: Network.Command)
    requires TurnTaken(vs, h, vs', h', i, chunk, command)
    ensures |vs'| == |vs| == |h'| && i < |vs|
    ensures AllWell(h') ==> vs[i].rw == Switch.Read
    ensures AllWell(h') && Elsewhere(command, i, |vs|) ==> vs[command.slot].BetweenMessages()
    ensures (AllWell(h) && vs[i].rw == Switch.Read
             && (Elsewhere(command, i, |vs|) ==> vs[command.slot].BetweenMessages())) ==> AllWell(h')
    ensures forall k :: 0 <= k < |vs| && k != i && !(Elsewhere(command, i, |vs|) && command.slot == k)
                   ==> vs'[k] == vs[k]
    ensures Elsewhere(command, i, |vs|) ==> vs'[command.slot] == vs[command.slot].Obeying(command.port)
  {
    hide HasRead;
    if AllWell(h') {
      assert h'[i] && (Elsewhere(command, i, |vs|) ==> h'[command.slot]);
    }
  }

  lemma StillAccounted(vs: seq<Switch.View>, h: seq<bool>, vs': seq<Switch.View>, h': seq<bool>, i: nat, sel: Selection,
                       keys: set<int>, pending: set<nat>, orders: seq<Directive>, chunk: seq<Byte>,
                       command: Network.Command)
    requires Due(vs, h, i, sel, keys, pending) && Accounted(orders, pending, sel.readable) && i < |vs|
    requires TurnTaken(vs, h, vs', h', i, chunk, command) && AllWell(h')
    ensures Accounted(orders + Issued(vs, command, i), StillPending(pending, i, command, |vs|, sel.readable),
                      sel.readable)
  {
    var later, all := StillPending(pending, i, command, |vs|, sel.readable), orders + Issued(vs, command, i);
    MetWell(vs, h, vs', h', i, chunk, command);
    hide TurnTaken, DueToRead;
    forall k | k in later
      ensures Met(all, k, sel.readable)
    {
      if k in pending {
        assert Met(orders, k, sel.readable);
        var d :| d in orders && d.target == k && !Clean(d, sel.readable);
        assert d in all;
      } else {
        assert Issued(vs, command, i)[0] in all;
      }
    }
  }

  lemma SpoiledTurn(vs: seq<Switch.View>, h: seq<bool>, vs': seq<Switch.View>, h': seq<bool>, i: nat, sel: Selection,
                    keys: set<int>, pending: set<nat>, orders: seq<Directive>, chunk: seq<Byte>,
                    command: Network.Command)
    requires Due(vs, h, i, sel, keys, pending) && Accounted(orders, pending, sel.readable)
    requires i < |vs| && i in sel.readable && TurnTaken(vs, h, vs', h', i, chunk, command) && !AllWell(h')
    ensures !AllClean(orders + Issued(vs, command, i), sel.readable)
  {
    var all := orders + Issued(vs, command, i);
    MetWell(vs, h, vs', h', i, chunk, command);
    hide TurnTaken, HasRead;
    if vs[i].rw == Switch.Read {
      assert Issued(vs, command, i)[0] in all;
    } else {
      assert i in pending;
      assert Met(orders, i, sel.readable);
      var d :| d in orders && d.target == i && !Clean(d, sel.readable);
      assert d in all;
    }
  }

  /** The turn of a connection that is not read from: at most this connection changes, and it stays intact. */
  lemma OtherTurn(from: State, to: State, i: nat, sel: Selection, keys: set<int>, pending: set<nat>)
    requires Due(from.views, from.health, i, sel, keys, pending) && i < |from.views| && i !in sel.readable
    requires HasSent(from, to, i, sel)
    ensures Due(to.views, to.health, i + 1, sel, keys, pending)
  {
    hide DueToRead;
  }

  // ---------------------------------------------------------------- what a round does to each connection

  /** The ports of the orders in a log. */
  function Ordered(log: seq<Exchange>): seq<Word32> {
    if log == [] then []
    else
      var last := log[|log| - 1];
      Ordered(log[..|log| - 1]) + (if last.Order? then [last.port] else [])
  }

  /** The ports of the orders given to connection `k`. */
  function PortsTo(orders: seq<Directive>, k: nat): seq<Word32> {
    if orders == [] then []
    else
      var last := orders[|orders| - 1];
      PortsTo(orders[..|orders| - 1], k) + (if last.target == k then [last.port] else [])
  }

  lemma OrderedExtended(log: seq<Exchange>, e: Exchange)
    ensures Ordered(log + [e]) == Ordered(log) + (if e.Order? then [e.port] else [])
  {
    assert (log + [e])[..|log|] == log;
  }

  lemma PortsToExtended(orders: seq<Directive>, d: Directive, k: nat)
    ensures PortsTo(orders + [d], k) == PortsTo(orders, k) + (if d.target == k then [d.port] else [])
  {
    assert (orders + [d])[..|orders|] == orders;
  }

  /** The connection is written to in this round. */
  predicate Writes(sel: Selection, k: nat) {
    k in sel.writable && k !in sel.readable
  }

  /** What connection `k` has sent before the turn of connection `i`: if that was its turn to write, as many bytes as
      there was room for, and when they were the last, its handshake is a stage further. */
  predicate Forwarded(before: Switch.View, now: Switch.View, k: nat, i: nat, sel: Selection)
    requires k < |sel.room|
  {
    if k < i && Writes(sel, k) then
      var n := Accepted(before, sel.room[k]);
      && before.sent <= now.sent && |now.sent| == |before.sent| + n
      && now.stage == (if n == before.expected && before.stage != 4 then before.stage + 1 else before.stage)
    else now.sent == before.sent && now.stage == before.stage
  }

  /** What has happened to connection `k` before the turn of connection `i`: it has read what waited for it if that was
      its turn to read, or sent what there was room for, and its log has the orders given to it. */
  predicate Progressed(before: Switch.View, now: Switch.View, k: nat, i: nat, sel: Selection, orders: seq<Directive>)
    requires k < |sel.waiting| == |sel.room|
  {
    && now.received == before.received + (if k < i && k in sel.readable then Chunk(before, sel.waiting[k]) else [])
    && Ordered(now.log) == Ordered(before.log) + PortsTo(orders, k)
    && Forwarded(before, now, k, i, sel)
  }

  /** The same for all, and connections still due are given what waited for them at the start. */
  ghost predicate AllProgressed(before: seq<Switch.View>, now: seq<Switch.View>, i: nat, sel: Selection,
                                pending: set<nat>, orders: seq<Directive>)
  {
    && |before| == |now| == |sel.waiting| == |sel.room|
    && (forall k :: 0 <= k < |now| ==> Progressed(before[k], now[k], k, i, sel, orders))
    && (forall k :: i <= k < |now| && ((k in sel.readable && k !in pending) || Writes(sel, k))
              ==> now[k].expected == before[k].expected)
  }

  lemma ProgressInReadTurn(before: seq<Switch.View>, vs: seq<Switch.View>, h: seq<bool>, vs': seq<Switch.View>,
                           h': seq<bool>, i: nat, sel: Selection, keys: set<int>, pending: set<nat>,
                           orders: seq<Directive>,
                           command: Network.Command)
    requires AllProgressed(before, vs, i, sel, pending, orders) && Due(vs, h, i, sel, keys, pending)
    requires i < |vs| && i in sel.readable && AllWell(h')
    requires TurnTaken(vs, h, vs', h', i, Chunk(vs[i], sel.waiting[i]), command)
    ensures AllProgressed(before, vs', i + 1, sel, StillPending(pending, i, command, |vs|, sel.readable),
                          orders + Issued(vs, command, i))
  {
    hide DueToRead, HasRead, Progressed, Issued;
    var chunk, all := Chunk(vs[i], sel.waiting[i]), orders + Issued(vs, command, i);
    MetWell(vs, h, vs', h', i, chunk, command);
    assert i !in pending;
    forall k | 0 <= k < |vs'|
      ensures Progressed(before[k], vs'[k], k, i + 1, sel, all)
    {
      assert Progressed(before[k], vs[k], k, i, sel, orders);
      ProgressOfOne(before[k], vs, h, vs', h', i, sel, chunk, command, orders, k);
    }
  }

  lemma ProgressOfOne(before: Switch.View, vs: seq<Switch.View>, h: seq<bool>, vs': seq<Switch.View>, h': seq<bool>,
                      i: nat, sel: Selection, chunk: seq<Byte>, command: Network.Command, orders: seq<Directive>,
                      k: nat)
    requires TurnTaken(vs, h, vs', h', i, chunk, command) && k < |vs| == |sel.waiting| == |sel.room|
    requires Progressed(before, vs[k], k, i, sel, orders) && i in sel.readable
    requires k == i ==> chunk == Chunk(before, sel.waiting[i])
    ensures Progressed(before, vs'[k], k, i + 1, sel, orders + Issued(vs, command, i))
  {
    hide Progressed, Ordered, PortsTo, Issued, Chunk;
    InputInReadTurn(vs, h, vs', h', i, chunk, command, k);
    LogsInReadTurn(vs, h, vs', h', i, chunk, command, orders, k);
    var more := if Elsewhere(command, i, |vs|) && command.slot == k then [command.port as Word32] else [];
    ProgressStep(before, vs[k], vs'[k], k, i, sel, orders, orders + Issued(vs, command, i), more);
  }

  lemma ProgressStep(before: Switch.View, now: Switch.View, next: Switch.View, k: nat, i: nat, sel: Selection,
                     orders: seq<Directive>, all: seq<Directive>, more: seq<Word32>)
    requires k < |sel.waiting| == |sel.room| && Progressed(before, now, k, i, sel, orders) && i in sel.readable
    requires next.sent == now.sent && next.stage == now.stage
    requires next.received == if k == i then now.received + Chunk(before, sel.waiting[i]) else now.received
    requires Ordered(next.log) == Ordered(now.log) + more && PortsTo(all, k) == PortsTo(orders, k) + more
    ensures Progressed(before, next, k, i + 1, sel, all)
  {
    hide Ordered, PortsTo, Chunk;
    assert Ordered(before.log) + PortsTo(orders, k) + more == Ordered(before.log) + (PortsTo(orders, k) + more);
    assert before.received + [] == before.received;
  }

  lemma InputInReadTurn(vs: seq<Switch.View>, h: seq<bool>, vs': seq<Switch.View>, h': seq<bool>, i: nat,
                        chunk: seq<Byte>, command: Network.Command, k: nat)
    requires TurnTaken(vs, h, vs', h', i, chunk, command) && k < |vs|
    ensures |vs'| == |vs| && i < |vs| && vs'[k].received == if k == i then vs[k].received + chunk else vs[k].received
    ensures vs'[k].sent == vs[k].sent && vs'[k].stage == vs[k].stage
  {
  }

  lemma LogsInReadTurn(vs: seq<Switch.View>, h: seq<bool>, vs': seq<Switch.View>, h': seq<bool>, i: nat,
                       chunk: seq<Byte>, command: Network.Command, orders: seq<Directive>, k: nat)
    requires TurnTaken(vs, h, vs', h', i, chunk, command) && k < |vs|
    ensures |vs'| == |vs|
    ensures PortsTo(orders + Issued(vs, command, i), k)
         == PortsTo(orders, k)
             + (if Elsewhere(command, i, |vs|) && command.slot == k then [command.port as Word32] else [])
    ensures Ordered(vs'[k].log)
         == Ordered(vs[k].log)
             + (if Elsewhere(command, i, |vs|) && command.slot == k then [command.port as Word32] else [])
  {
    if Elsewhere(command, i, |vs|) {
      PortsToExtended(orders, Issued(vs, command, i)[0], k);
      OrderedExtended(vs[command.slot].log, Order(command.port));
    } else {
      assert orders + Issued(vs, command, i) == orders;
    }
    if k == i && vs[i].rw == Switch.Read && vs[i].Completes(chunk) {
      OrderedExtended(vs[i].log, Exchange(vs[i].Arrived(chunk), CloseAt(command, i)));
    }
  }

  lemma ProgressInOtherTurn(before: seq<Switch.View>, from: State, to: State, i: nat, sel: Selection,
                            pending: set<nat>, orders: seq<Directive>)
    requires AllProgressed(before, from.views, i, sel, pending, orders) && i < |from.views| && i !in sel.readable
    requires HasSent(from, to, i, sel)
    ensures AllProgressed(before, to.views, i + 1, sel, pending, orders)
  {
    forall k | 0 <= k < |to.views|
      ensures Progressed(before[k], to.views[k], k, i + 1, sel, orders)
    {
      assert Progressed(before[k], from.views[k], k, i, sel, orders);
    }
  }

  // ---------------------------------------------------------------- the course of a round

  /** All connections, which of them are intact, and the graph. */
  datatype State = State(views: seq<Switch.View>, health: seq<bool>, graph: Graph)

  /** The turn of a connection: the state it finds, and the command that the loop search answers it with. */
  datatype Step = Step(from: State, command: Network.Command)

  /** The turn of connection `i` leads to the state `to`. */
  ghost predicate Made(step: Step, i: nat, fds: seq<int>, sel: Selection, to: State) {
    var from := step.from;
    && i < |from.views| && |sel.waiting| == |sel.room| == |from.views|
    && (if i in sel.readable then
          var chunk := Chunk(from.views[i], sel.waiting[i]);
          && Deliverable(from.views[i], chunk)
          && Recorded(from.graph, to.graph, fds, i, LinkOf(from.views[i], chunk), step.command)
          && TurnTaken(from.views, from.health, to.views, to.health, i, chunk, step.command)
        else step.command.NoCommand? && HasSent(from, to, i, sel))
  }

  /** Connection `i` has sent as much as there is room for, if `select` has found it writable; nothing else
      has happened. */
  predicate HasSent(from: State, to: State, i: nat, sel: Selection)
    requires i < |from.views| == |sel.room|
  {
    && to.graph == from.graph && to.health == from.health && |to.views| == |from.views|
    && (forall k :: 0 <= k < |to.views| && k != i ==> to.views[k] == from.views[k])
    && (if i in sel.writable then from.views[i].Wrote(to.views[i], Accepted(from.views[i], sel.room[i]))
        else to.views[i] == from.views[i])
  }

  /** The turns of the connections 0, 1, 2 and so on lead from `start` to `end`. */
  ghost predicate Course(start: State, steps: seq<Step>, fds: seq<int>, sel: Selection, end: State) {
    if steps == [] then end == start
    else
      var last := |steps| - 1;
      Made(steps[last], last, fds, sel, end) && Course(start, steps[..last], fds, sel, steps[last].from)
  }

  /** The orders that the turns have given to other connections, in this order. */
  function OrdersOf(steps: seq<Step>): seq<Directive> {
    if steps == [] then []
    else
      var last := |steps| - 1;
      OrdersOf(steps[..last]) + Issued(steps[last].from.views, steps[last].command, last)
  }

  lemma NothingIssued(vs: seq<Switch.View>, orders: seq<Directive>, i: nat)
    ensures orders + Issued(vs, Network.NoCommand, i) == orders
  {
  }

  lemma CourseExtended(start: State, steps: seq<Step>, fds: seq<int>, sel: Selection, step: Step, end: State)
    requires Course(start, steps, fds, sel, step.from) && Made(step, |steps|, fds, sel, end)
    ensures Course(start, steps + [step], fds, sel, end)
    ensures OrdersOf(steps + [step]) == OrdersOf(steps) + Issued(step.from.views, step.command, |steps|)
  {
    hide Made, Issued;
    assert (steps + [step])[..|steps|] == steps;
  }

  /** After the turns `steps`: all is well and what is left of the round is due, or an order was not clean. */
  ghost predicate Stands(start: State, steps: seq<Step>, fds: seq<int>, sel: Selection, now: State, kept: bool,
                         pending: set<nat>)
  {
    && Course(start, steps, fds, sel, now)
    && (kept <==> AllWell(now.health))
    && (if kept then
          && Due(now.views, now.health, |steps|, sel, now.graph.adj.Keys, pending)
          && Accounted(OrdersOf(steps), pending, sel.readable)
          && AllProgressed(start.views, now.views, |steps|, sel, pending, OrdersOf(steps))
        else !AllClean(OrdersOf(steps), sel.readable))
  }

  /** One more turn. */
  lemma StandsOn(start: State, steps: seq<Step>, fds: seq<int>, sel: Selection, step: Step, now: State, kept: bool,
                 later: set<nat>)
    requires Course(start, steps, fds, sel, step.from) && Made(step, |steps|, fds, sel, now)
    requires kept <==> AllWell(now.health)
    requires var all := OrdersOf(steps) + Issued(step.from.views, step.command, |steps|);
             if kept then
               && Due(now.views, now.health, |steps| + 1, sel, now.graph.adj.Keys, later)
               && Accounted(all, later, sel.readable)
               && AllProgressed(start.views, now.views, |steps| + 1, sel, later, all)
             else !AllClean(all, sel.readable)
    ensures Stands(start, steps + [step], fds, sel, now, kept, later)
  {
    hide Course, Made, OrdersOf, Issued, AllWell, Due, Accounted, AllProgressed, AllClean;
    CourseExtended(start, steps, fds, sel, step, now);
  }

  lemma RoundBegins(start: State, fds: seq<int>, sel: Selection)
    requires Due(start.views, start.health, 0, sel, start.graph.adj.Keys, {})
    ensures Stands(start, [], fds, sel, start, true, {})
  {
    hide DueToRead;
  }

  lemma RoundEnds(start: State, steps: seq<Step>, fds: seq<int>, sel: Selection, now: State, kept: bool,
                  pending: set<nat>)
    requires Stands(start, steps, fds, sel, now, kept, pending) && (kept ==> |steps| == |now.views|)
    ensures Course(start, steps, fds, sel, now)
    ensures kept <==> AllWell(now.health)
    ensures kept <==> AllClean(OrdersOf(steps), sel.readable)
    ensures kept ==> AllProgressed(start.views, now.views, |steps|, sel, {}, OrdersOf(steps))
  {
    hide DueToRead, AllProgressed, Course;
    if kept {
      assert forall k: nat :: k !in pending;
      assert pending == {};
    }
  }

  class Hub {
    const network: Network.Controller
    var switches: seq<Conn>
    var xidGenerator: Word32

    constructor ()
      ensures Valid() && switches == [] && network.graph == NO_DEVICES && fresh(network) && fresh(network.devices)
    {
      network := new Network.Controller();
      switches, xidGenerator := [], 1;
    }

    /** Everything that the connections consist of. */
    ghost function Memory(): set<object>
      reads this`switches
    {
      (set i | 0 <= i < |switches| :: switches[i] as object)
          + (set i, o | 0 <= i < |switches| && o in Buffers(switches[i]) :: o)
    }

    /** The connections share no memory. */
    ghost predicate Apart()
      reads this`switches, network`devices
    {
      && this !in Memory() && network !in Memory() && network.devices !in Memory()
      && Disjoint(switches)
    }

    /** Slot `i` of the switch list and of the graph is connection `i`. */
    ghost predicate Wired()
      reads this`switches, network`switchList
    {
      && |switches| == |network.switchList|
      && forall i :: 0 <= i < |switches| ==> switches[i].socketFd == network.switchList[i]
    }

    ghost predicate Valid()
      reads this`switches, network, network.devices, network.Nodes()
    {
      Graphed() && Apart() && Wired()
    }

    ghost predicate Graphed()
      reads network, network.devices, network.Nodes()
    {
      network.Valid() && network.Narrow()
    }

    ghost predicate Intact(k: nat)
      requires k < |switches|
      reads this`switches, switches[k], Buffers(switches[k])
    {
      switches[k].Valid()
    }

    /** For each connection, whether its streams are as the protocol wants them. */
    ghost function Health(): (h: seq<bool>)
      reads this, Memory()
      ensures |h| == |switches| && forall k :: 0 <= k < |h| ==> h[k] == Intact(k)
    {
      seq(|switches|, k requires 0 <= k < |switches| reads this, Memory() => Intact(k))
    }

    ghost function ViewOf(k: nat): Switch.View
      requires k < |switches|
      reads this`switches, switches[k], Buffers(switches[k])
    {
      switches[k].Seen()
    }

    ghost function Views(): (vs: seq<Switch.View>)
      reads this, Memory()
      ensures |vs| == |switches| && forall k :: 0 <= k < |vs| ==> vs[k] == ViewOf(k)
    {
      seq(|switches|, k requires 0 <= k < |switches| reads this, Memory() => ViewOf(k))
    }

    /** The parts of connection `i` are nowhere else. */
    lemma OnlyOne(i: nat)
      requires Apart() && i < |switches|
      ensures forall k :: 0 <= k < |switches| && k != i
                     ==> switches[k] != switches[i] && Buffers(switches[k]) !! Buffers(switches[i])
      ensures Outside(switches[i]) && forall o :: o in Buffers(switches[i]) ==> Outside(o)
    {
      hide Network.Controller.Valid, Network.Controller.Narrow;
      assert Buffers(switches[i]) <= Memory() && switches[i] in Memory();
    }

    /** The object is no part of the graph. */
    ghost predicate Outside(o: object)
      reads this, network
    {
      o != this && o != network && o != network.devices && forall n :: n in network.Nodes() ==> n as object != o
    }

    lemma ReadsInBuffer(k: nat)
      requires k < |switches| && Intact(k)
      ensures switches[k].rw == Switch.Read ==> switches[k].bytesRead <= switches[k].readBuffer.Length
      ensures switches[k].Ordered() ==> switches[k].bytesRead <= switches[k].readBuffer.Length
      ensures switches[k].readBuffer != switches[k].writeBuffer
      ensures switches[k].rw == Switch.Read && switches[k].bytesRead == 0 ==> switches[k].readingHeader
    {
    }

    lemma CanHandle(i: nat, chunk: seq<Byte>, close: bool)
      requires i < |switches| && Intact(i) && Deliverable(ViewOf(i), chunk)
      ensures switches[i].rw == Switch.Read || switches[i].Ordered()
      ensures switches[i].rw == Switch.Read ==> switches[i].Readable(chunk, close)
      ensures switches[i].bytesRead <= switches[i].readBuffer.Length
      ensures switches[i].Completes(chunk) == ViewOf(i).Completes(chunk)
      ensures switches[i].Arrived(chunk) == ViewOf(i).Arrived(chunk)
      ensures switches[i].rw == Switch.Read ==> LinkOf(ViewOf(i), chunk) == switches[i].Reported(chunk)
    {
      ReadsInBuffer(i);
    }

    /** Connection `k` closes a port, and no other connection notices. */
    method GiveOrder(k: nat, port: Word32)
      requires Valid() && k < |switches| && Intact(k) && port < MAX_PORTS
      modifies switches[k], switches[k].writeBuffer
      ensures Valid()
      ensures network.graph == old(network.graph) && network.switchList == old(network.switchList)
      ensures network.Nodes() == old(network.Nodes())
      ensures Views() == old(Views())[k := old(ViewOf(k)).Obeying(port)]
      ensures Health() == old(Health())[k := old(ViewOf(k)).BetweenMessages()]
    {
      hide Switch.Switch.Valid, LoopSearch.LoopExists, Network.Controller.Valid, Network.Controller.Narrow;
      OnlyOne(k);
      ReadsInBuffer(k);
      switches[k].ObeyOrder(port);
      assert ViewOf(k) == old(ViewOf(k)).Obeying(port);
      forall j | 0 <= j < |switches| && j != k
        ensures Views()[j] == old(Views())[j] && Health()[j] == old(Health())[j]
      {
        assert ViewOf(j) == old(ViewOf(j)) && Intact(j) == old(Intact(j));
      }
    }

    /** The own part of handle_read_socket. */
    method Deliver(i: nat, chunk: seq<Byte>, close: bool)
      requires Valid() && i < |switches| && Intact(i) && Deliverable(ViewOf(i), chunk)
      modifies switches[i], Buffers(switches[i])
      ensures Valid()
      ensures network.graph == old(network.graph) && network.switchList == old(network.switchList)
      ensures network.Nodes() == old(network.Nodes())
      ensures HasRead(old(ViewOf(i)), ViewOf(i), chunk, close) && Views() == old(Views())[i := ViewOf(i)]
      ensures Health() == old(Health())[i := old(ViewOf(i)).rw == Switch.Read]
    {
      hide Switch.Switch.Valid, LoopSearch.LoopExists, Network.Controller.Valid, Network.Controller.Narrow,
           Switch.Switch.Readable, Switch.Switch.Completes;
      OnlyOne(i);
      ReadsInBuffer(i);
      CanHandle(i, chunk, close);
      switches[i].HandleReadSocket(chunk, close);
      forall j | 0 <= j < |switches| && j != i
        ensures Views()[j] == old(Views())[j] && Health()[j] == old(Health())[j]
      {
        assert ViewOf(j) == old(ViewOf(j)) && Intact(j) == old(Intact(j));
      }
    }

    /** The device that a link comes from is connected. */
    ghost predicate Known(link: Option<Switch.Link>)
      reads network`graph
    {
      KnownIn(network.graph.adj.Keys, link)
    }

    lemma DeviceOf(i: nat)
      requires Valid() && i < |switches|
      ensures switches[i].socketFd as int in network.graph.adj && switches[i].socketFd == network.switchList[i]
      ensures |switches| == |network.switchList|
    {
      hide Apart;
      assert DeviceNum(network.switchList[i]) == network.graph.order[i];
      assert network.graph.order[i] in network.graph.order;
    }

    /** The objects of the connections are no part of the graph. */
    lemma AllOutside()
      requires Apart()
      ensures forall k, o :: 0 <= k < |switches| && (o == switches[k] as object || o in Buffers(switches[k]))
                     ==> Outside(o)
    {
      hide Apart;
      forall k | 0 <= k < |switches|
        ensures forall o :: o == switches[k] as object || o in Buffers(switches[k]) ==> Outside(o)
      {
        OnlyOne(k);
      }
    }

    lemma GraphIsClosed()
      requires network.Valid()
      ensures Closed(network.graph)
    {
    }

    /** add_connection for a probe that has come in at connection `i`. */
    method RecordProbe(i: nat, link: Switch.Link) returns (command: Network.Command)
      requires Valid() && i < |switches| && Known(Some(link))
      modifies network`chains, network`graph, network.Nodes()
      ensures Valid() && fresh(network.Nodes() - old(network.Nodes()))
      ensures Recorded(old(network.graph), network.graph, network.switchList, i, Some(link), command)
      ensures Views() == old(Views()) && Health() == old(Health())
    {
      hide Switch.Switch.Valid, LoopSearch.LoopExists, Network.Controller.Valid, Closed, AddLink, Apart;
      DeviceOf(i);
      AllOutside();
      command := network.AddConnection(switches[i].socketFd, link.src, link.port);
      GraphIsClosed();
      forall j | 0 <= j < |switches|
        ensures Views()[j] == old(Views())[j] && Health()[j] == old(Health())[j]
      {
        assert ViewOf(j) == old(ViewOf(j)) && Intact(j) == old(Intact(j));
      }
    }

    /** What is known before connection `i` is read from. */
    ghost predicate MayRead(i: nat, chunk: seq<Byte>)
      requires i < |switches|
      reads this`switches, network`graph, switches[i], Buffers(switches[i])
    {
      Deliverable(ViewOf(i), chunk) && Known(LinkOf(ViewOf(i), chunk))
    }

    ghost predicate AllIntact()
      reads this, Memory()
    {
      forall k :: 0 <= k < |switches| ==> Intact(k)
    }

    /** The part of read_packet_in that concerns the graph. */
    method Report(i: nat, chunk: seq<Byte>) returns (command: Network.Command)
      requires Valid() && i < |switches| && Intact(i) && MayRead(i, chunk)
      modifies network`chains, network`graph, network.Nodes()
      ensures Valid() && fresh(network.Nodes() - old(network.Nodes())) && Views() == old(Views())
      ensures Health() == old(Health())
      ensures Recorded(old(network.graph), network.graph, network.switchList, i, LinkOf(old(ViewOf(i)), chunk), command)
      ensures command.ClosePort? ==> command.slot < |switches| && 0 <= command.port < MAX_PORTS
    {
      hide Switch.Switch.Valid, LoopSearch.LoopExists, Network.Controller.Valid, Closed, AddLink, Apart, Wired,
           Switch.Switch.Readable, Switch.Switch.Reported, Switch.View.Readable, Switch.View.Reported;
      command := Network.NoCommand;
      CanHandle(i, chunk, true);
      PortInRange(ViewOf(i), chunk);
      DeviceOf(i);
      if switches[i].rw == Switch.Read {
        var link := switches[i].Reported(chunk);
        if link.Some? {
          command := RecordProbe(i, link.value);
        }
      }
    }

    lemma InMemory(k: nat)
      requires k < |switches|
      ensures switches[k] in Memory() && Buffers(switches[k]) <= Memory()
    {
    }

    /** The command reaches the switch that it names, if that is not connection `i`. */
    method PassOn(i: nat, command: Network.Command) returns (clean: bool)
      requires Valid() && AllIntact() && i < |switches|
      modifies Memory()
      ensures Valid() && network.graph == old(network.graph) && network.switchList == old(network.switchList)
      ensures network.Nodes() == old(network.Nodes())
      ensures Views() == PassedOn(old(Views()), command, i)
      ensures Health() == HealthPassedOn(old(Health()), old(Views()), command, i)
      ensures clean <==> (Elsewhere(command, i, |switches|) ==> old(Views())[command.slot].BetweenMessages())
    {
      hide Switch.Switch.Valid, Network.Controller.Valid, Apart, Wired, PassedOn, HealthPassedOn;
      ghost var vs, h := Views(), Health();
      clean := true;
      if Elsewhere(command, i, |switches|) {
        assert h[command.slot] == Intact(command.slot) && vs[command.slot] == ViewOf(command.slot);
        ReadsInBuffer(command.slot);
        clean := switches[command.slot].rw == Switch.Read && switches[command.slot].bytesRead == 0;
        InMemory(command.slot);
        GiveOrder(command.slot, command.port);
      }
      Passed(vs, h, Views(), Health(), command, i);
    }

    /** What reading from connection `i` sets off elsewhere: a probe is recorded as a link, and if the loop search then
        names another switch, that switch is to close the port. `clean` tells whether it is between two messages. */
    method Announce(i: nat, chunk: seq<Byte>) returns (command: Network.Command, clean: bool)
      requires Valid() && AllIntact() && i < |switches| && MayRead(i, chunk)
      modifies network`chains, network`graph, network.Nodes(), Memory()
      ensures Valid() && fresh(network.Nodes() - old(network.Nodes()))
      ensures Recorded(old(network.graph), network.graph, network.switchList, i, LinkOf(old(ViewOf(i)), chunk), command)
      ensures command.ClosePort? ==> command.slot < |switches| && 0 <= command.port < MAX_PORTS
      ensures Views() == PassedOn(old(Views()), command, i)
      ensures Health() == HealthPassedOn(old(Health()), old(Views()), command, i)
      ensures clean <==> (Elsewhere(command, i, |switches|) ==> old(Views())[command.slot].BetweenMessages())
    {
      hide Switch.Switch.Valid, LoopSearch.LoopExists, Network.Controller.Valid, Closed, AddLink, Apart, Wired,
           Recorded, Deliverable, LinkOf, PassedOn, HealthPassedOn;
      command := Report(i, chunk);
      assert AllWell(Health());
      WellIsIntact();
      clean := PassOn(i, command);
    }

    /** handle_read_socket for connection `i`, with what it sets off elsewhere. */
    method HandleReadSocket(i: nat, chunk: seq<Byte>) returns (command: Network.Command, intact: bool)
      requires Valid() && AllIntact() && i < |switches| && MayRead(i, chunk)
      modifies network`chains, network`graph, network.Nodes(), Memory()
      ensures Valid() && fresh(network.Nodes() - old(network.Nodes()))
      ensures Recorded(old(network.graph), network.graph, network.switchList, i, LinkOf(old(ViewOf(i)), chunk), command)
      ensures TurnTaken(old(Views()), old(Health()), Views(), Health(), i, chunk, command)
      ensures intact <==> AllWell(Health())
    {
      hide Switch.Switch.Valid, LoopSearch.LoopExists, Network.Controller.Valid, Closed, AddLink, Apart, Wired,
           Recorded, HasRead, Deliverable, LinkOf, TurnTaken, PassedOn, HealthPassedOn;
      ghost var vs, h := Views(), Health();
      assert h[i] == Intact(i) && vs[i] == ViewOf(i);
      InMemory(i);
      NotInMemory();
      var clean;
      var reading := switches[i].rw == Switch.Read;
      command, clean := Announce(i, chunk);
      intact := reading && clean;
      ghost var vs', h' := Views(), Health();
      UnchangedAt(vs, h, command, i);
      assert h'[i] == Intact(i) && vs'[i] == ViewOf(i);
      Deliver(i, chunk, CloseAt(command, i));
      Taken(vs, h, vs', h', Views(), Health(), i, chunk, command);
      MetWell(vs, h, Views(), Health(), i, chunk, command);
    }

    /** handle_write_socket for connection `i`. */
    method HandleWriteSocket(i: nat, n: nat)
      requires Valid() && i < |switches| && Intact(i) && switches[i].rw == Switch.Write
      requires 1 <= n <= switches[i].bytesExpected
      modifies switches[i], Buffers(switches[i])
      ensures Valid()
      ensures network.graph == old(network.graph) && network.switchList == old(network.switchList)
      ensures network.Nodes() == old(network.Nodes())
      ensures Views() == old(Views())[i := ViewOf(i)] && Health() == old(Health())
      ensures old(ViewOf(i)).Wrote(ViewOf(i), n)
    {
      hide Switch.Switch.Valid, LoopSearch.LoopExists, Network.Controller.Valid, Network.Controller.Narrow;
      OnlyOne(i);
      switches[i].HandleWriteSocket(n);
      forall j | 0 <= j < |switches| && j != i
        ensures Views()[j] == old(Views())[j] && Health()[j] == old(Health())[j]
      {
        assert ViewOf(j) == old(ViewOf(j)) && Intact(j) == old(Intact(j));
      }
    }

    lemma WellIsIntact()
      requires AllWell(Health())
      ensures AllIntact()
    {
      forall k | 0 <= k < |switches|
        ensures Intact(k)
      {
        assert Health()[k];
      }
    }

    /** What connection `k` has sent is a beginning of what its log calls for: its length tells what it is. */
    ghost predicate InStep(k: nat)
      requires k < |switches|
      reads this`switches, switches[k]
    {
      var s := switches[k];
      s.origin.Valid() && Usables(s.log) && s.sent <= Concat(Sent(s.origin, s.log))
    }

    lemma WellIsInStep()
      requires AllWell(Health())
      ensures forall k :: 0 <= k < |switches| ==> InStep(k)
    {
      hide Switch.Switch.Valid, Concat, Sent, Usables;
      WellIsIntact();
      forall k | 0 <= k < |switches|
        ensures InStep(k)
      {
        assert Intact(k);
        switches[k].SentIsCalledFor();
      }
    }

    /** What is due can be delivered, to a connection that reads or to one that an order has just reached. */
    lemma DueIsDeliverable(i: nat, sel: Selection, pending: set<nat>)
      requires Due(Views(), Health(), i, sel, network.graph.adj.Keys, pending) && i < |switches| && i in sel.readable
      ensures MayRead(i, Chunk(ViewOf(i), sel.waiting[i]))
    {
      hide Intact;
      assert Views()[i] == ViewOf(i);
      if i !in pending {
        assert DueToRead(ViewOf(i), sel.waiting[i], network.graph.adj.Keys);
      }
    }

    lemma SameDevices(g: Graph, i: nat, link: Option<Switch.Link>, command: Network.Command)
      requires Recorded(g, network.graph, network.switchList, i, link, command)
      ensures network.graph.adj.Keys == g.adj.Keys
    {
      hide Closed, LoopSearch.LoopExists;
    }

    ghost function Now(): State
      reads this, Memory(), network`graph
    {
      State(Views(), Health(), network.graph)
    }

    /** The turn of a connection that `select` has found readable. */
    method ReadFromOne(i: nat, sel: Selection, ghost pending: set<nat>, ghost orders: seq<Directive>)
      returns (kept: bool, ghost command: Network.Command, ghost later: set<nat>)
      requires Valid() && i < |switches| && i in sel.readable
      requires Due(Views(), Health(), i, sel, network.graph.adj.Keys, pending)
      requires Accounted(orders, pending, sel.readable)
      modifies network`chains, network`graph, network.Nodes(), Memory()
      ensures Valid() && fresh(network.Nodes() - old(network.Nodes()))
      ensures network.graph.adj.Keys == old(network.graph.adj.Keys)
      ensures Made(Step(old(Now()), command), i, network.switchList, sel, Now())
      ensures kept <==> AllWell(Health())
      ensures var all := orders + Issued(old(Views()), command, i);
              if kept then
                Due(Views(), Health(), i + 1, sel, network.graph.adj.Keys, later) && Accounted(all, later, sel.readable)
              else !AllClean(all, sel.readable)
      ensures forall before :: kept && AllProgressed(before, old(Views()), i, sel, pending, orders)
                ==> AllProgressed(before, Views(), i + 1, sel, later, orders + Issued(old(Views()), command, i))
    {
      hide Switch.Switch.Valid, LoopSearch.LoopExists, Network.Controller.Valid, Closed, AddLink, Apart, Wired,
           Recorded, Accounted, Deliverable, LinkOf, TurnTaken, StillPending, Issued, AllProgressed, AllClean, HasRead;
      ghost var vs, h := Views(), Health();
      assert vs[i] == ViewOf(i) && h[i] == Intact(i);
      WellIsIntact();
      DueIsDeliverable(i, sel, pending);
      var chunk := Delivered(switches[i].bytesExpected, sel.waiting[i]);
      ghost var link := LinkOf(ViewOf(i), chunk);
      var answer;
      answer, kept := HandleReadSocket(i, chunk);
      SameDevices(old(network.graph), i, link, answer);
      command, later := answer, StillPending(pending, i, answer, |vs|, sel.readable);
      ReadTurn(vs, h, Views(), Health(), i, sel, network.graph.adj.Keys, pending, orders, chunk, command);
      if kept {
        forall before | AllProgressed(before, vs, i, sel, pending, orders)
          ensures AllProgressed(before, Views(), i + 1, sel, later, orders + Issued(vs, command, i))
        {
          ProgressInReadTurn(before, vs, h, Views(), Health(), i, sel, network.graph.adj.Keys, pending, orders,
                             command);
        }
      }
    }

    /** The turn of a connection that `select` has not found readable. */
    method WriteToOne(i: nat, sel: Selection, ghost pending: set<nat>, ghost orders: seq<Directive>)
      requires Valid() && i < |switches| && i !in sel.readable
      requires Due(Views(), Health(), i, sel, network.graph.adj.Keys, pending)
      modifies switches[i], Buffers(switches[i])
      ensures Valid() && network.Nodes() == old(network.Nodes()) && network.graph == old(network.graph)
      ensures Made(Step(old(Now()), Network.NoCommand), i, network.switchList, sel, Now())
      ensures AllWell(Health()) && Due(Views(), Health(), i + 1, sel, network.graph.adj.Keys, pending)
      ensures forall before :: AllProgressed(before, old(Views()), i, sel, pending, orders)
                ==> AllProgressed(before, Views(), i + 1, sel, pending, orders)
    {
      hide Switch.Switch.Valid, Network.Controller.Valid, Closed, Apart, Wired, AllProgressed;
      ghost var from := Now();
      assert from.views[i] == ViewOf(i) && from.health[i] && from.health[i] == Intact(i);
      if switches[i].rw != Switch.Disconnected && i in sel.writable {
        SomethingWaits(i);
        var waiting := switches[i].bytesExpected;
        HandleWriteSocket(i, if sel.room[i] < waiting then sel.room[i] else waiting);
      }
      assert Views()[i] == ViewOf(i);
      OtherTurn(from, Now(), i, sel, network.graph.adj.Keys, pending);
      forall before | AllProgressed(before, from.views, i, sel, pending, orders)
        ensures AllProgressed(before, Views(), i + 1, sel, pending, orders)
      {
        ProgressInOtherTurn(before, from, Now(), i, sel, pending, orders);
      }
    }

    lemma SomethingWaits(i: nat)
      requires i < |switches| && Intact(i)
      ensures switches[i].rw == Switch.Write ==> switches[i].bytesExpected >= 1
    {
    }

    method Turn(i: nat, sel: Selection, ghost start: State, ghost pending: set<nat>, ghost steps: seq<Step>)
      returns (kept: bool, ghost later: set<nat>, ghost command: Network.Command)
      requires Valid() && i < |switches| && i == |steps|
      requires Stands(start, steps, network.switchList, sel, Now(), true, pending)
      modifies network`chains, network`graph, network.Nodes(), Memory()
      ensures Valid() && fresh(network.Nodes() - old(network.Nodes()))
      ensures Stands(start, steps + [Step(old(Now()), command)], network.switchList, sel, Now(), kept, later)
    {
      hide Valid, AllProgressed, Due, Accounted, AllClean, Made, Course, OrdersOf, Issued;
      NotInMemory();
      InMemory(i);
      if i in sel.readable {
        kept, command, later := ReadFromOne(i, sel, pending, OrdersOf(steps));
      } else {
        kept, command, later := true, Network.NoCommand, pending;
        WriteToOne(i, sel, pending, OrdersOf(steps));
        NothingIssued(old(Views()), OrdersOf(steps), i);
      }
      StandsOn(start, steps, network.switchList, sel, Step(old(Now()), command), Now(), kept, later);
    }

    /** handle_all_sockets after `select` has reported `sel`. As soon as the streams of a connection are spoiled the
        round is not followed further. That happens exactly when an order has met its target elsewhere than between two
        messages, or is given to a connection that is still to be read from in the same round. */
    method HandleAllSockets(sel: Selection) returns (kept: bool, ghost steps: seq<Step>)
      requires Valid() && Due(Views(), Health(), 0, sel, network.graph.adj.Keys, {})
      modifies network`chains, network`graph, network.Nodes(), Memory()
      ensures Valid() && fresh(network.Nodes() - old(network.Nodes()))
      ensures Course(old(Now()), steps, network.switchList, sel, Now()) && (kept ==> |steps| == |switches|)
      ensures kept <==> AllWell(Health())
      ensures kept <==> AllClean(OrdersOf(steps), sel.readable)
      ensures kept ==> AllProgressed(old(Views()), Views(), |switches|, sel, {}, OrdersOf(steps))
      ensures kept ==> forall k :: 0 <= k < |switches| ==> InStep(k)
    {
      hide Valid, Stands, AllProgressed, AllWell, AllClean, Course, OrdersOf, Due;
      ghost var pending: set<nat> := {};
      ghost var conns, mem, start := switches, Memory(), Now();
      var i := 0;
      kept, steps := true, [];
      RoundBegins(start, network.switchList, sel);
      while i < |switches| && kept
        invariant Valid() && 0 <= i <= |switches| && fresh(network.Nodes() - old(network.Nodes()))
        invariant switches == conns && Memory() == mem && i == |steps|
        invariant Stands(start, steps, network.switchList, sel, Now(), kept, pending)
        decreases |switches| - i
      {
        NotInMemory();
        ghost var from := Now();
        ghost var command;
        kept, pending, command := Turn(i, sel, start, pending, steps);
        i, steps := i + 1, steps + [Step(from, command)];
      }
      RoundEnds(start, steps, network.switchList, sel, Now(), kept, pending);
      if kept {
        WellIsInStep();
      }
    }

    /** The events that a round can put in this order: an order meets connection `k` between two messages, and then the
        connection, found readable before, is read from. Whatever `recv` delivers, the streams are spoiled. */
    method OrderBeforeRead(k: nat, port: Word32, chunk: seq<Byte>)
      requires Valid() && k < |switches| && Intact(k) && ViewOf(k).BetweenMessages() && port < MAX_PORTS
      requires 1 <= |chunk| <= 40
      modifies switches[k], Buffers(switches[k])
      ensures !Intact(k) && ViewOf(k).received == old(ViewOf(k)).received + chunk
      ensures ViewOf(k).log == old(ViewOf(k)).log + [Order(port)]
    {
      hide Switch.Switch.Valid, Network.Controller.Valid, Apart, Wired;
      GiveOrder(k, port);
      assert Views()[k] == ViewOf(k) && Health()[k] == Intact(k);
      Deliver(k, chunk, false);
      assert Health()[k] == Intact(k);
    }

    /** setup_new_switch: the connection and its device, in the next slot of either list. */
    method SetupNewSwitch(fd: Word16, ports: seq<seq<Byte>>)
      requires Valid() && |switches| < network.MAX_NETWORK_SIZE && Admissible(network.graph, Join(fd)) && fd < 0x100
      requires |ports| == MAX_PORTS && forall j :: 0 <= j < |ports| ==> |ports[j]| == 64
      modifies this`switches, this`xidGenerator, network`switchList, network`graph, network`chains, network.devices
      ensures Valid() && |switches| == |old(switches)| + 1 && switches[..|old(switches)|] == old(switches)
      ensures network.graph == AddDevice(old(network.graph), fd) && xidGenerator == NextXid(old(xidGenerator))
      ensures Health() == old(Health()) + [true] && Views()[..|old(switches)|] == old(Views())
      ensures switches[|old(switches)|].origin == Peer(fd, old(xidGenerator), ports, true)
      ensures ViewOf(|old(switches)|) == Switch.View.View(Switch.Write, true, 0, 16, [], 0, [], [], [])
    {
      hide Switch.Switch.Valid, Network.Controller.Valid, Network.Controller.Narrow, Closed, AddDevice;
      OneSlotEach();
      AddToGraph(fd);
      var s := NewConnection(fd, ports);
      assert WiredWith(s);
      Enlist(s);
    }

    lemma OneSlotEach()
      requires Valid()
      ensures |switches| == |network.graph.order|
    {
    }

    /** The connection takes the next place in the list. */
    method Enlist(s: Conn)
      requires Graphed() && Apart() && s.Valid() && WiredWith(s)
      requires s !in Memory() && Buffers(s) !! Memory() && Outside(s) && forall o :: o in Buffers(s) ==> Outside(o)
      modifies this`switches, this`xidGenerator
      ensures Valid() && switches == old(switches) + [s] && xidGenerator == NextXid(old(xidGenerator))
      ensures s.Seen() == old(s.Seen())
      ensures Health() == old(Health()) + [true] && Views()[..|old(switches)|] == old(Views())
    {
      hide Switch.Switch.Valid, Network.Controller.Valid, Network.Controller.Narrow, Disjoint;
      ghost var n := |switches|;
      NewNeighbour(s);
      switches := switches + [s];
      xidGenerator := NextXid(xidGenerator);
      forall k | 0 <= k < n
        ensures switches[k] == old(switches[k]) && ViewOf(k) == old(ViewOf(k)) && Intact(k) == old(Intact(k))
      {
      }
      assert Intact(n) && Graphed();
    }

    /** With the connection at the end, slots and list agree. */
    ghost predicate WiredWith(s: Conn)
      reads this`switches, network`switchList
    {
      && |network.switchList| == |switches| + 1 && network.switchList[|switches|] == s.socketFd
      && forall i :: 0 <= i < |switches| ==> switches[i].socketFd == network.switchList[i]
    }

    lemma NewNeighbour(s: Conn)
      requires Apart() && s !in Memory() && Buffers(s) !! Memory()
      ensures Disjoint(switches + [s])
    {
      forall k | 0 <= k < |switches|
        ensures switches[k] != s && Buffers(switches[k]) !! Buffers(s)
      {
        InMemory(k);
      }
      DisjointWith(switches, s);
    }

    method NewConnection(fd: Word16, ports: seq<seq<Byte>>) returns (s: Conn)
      requires Graphed() && Apart() && |ports| == MAX_PORTS && forall j :: 0 <= j < |ports| ==> |ports[j]| == 64
      ensures Views() == old(Views()) && Health() == old(Health())
      ensures Graphed() && fresh(s) && s.Valid() && s.socketFd == fd && s.origin == Peer(fd, xidGenerator, ports, true)
      ensures s.Seen() == Switch.View.View(Switch.Write, true, 0, 16, [], 0, [], [], [])
      ensures s !in Memory() && Buffers(s) !! Memory() && Outside(s) && forall o :: o in Buffers(s) ==> Outside(o)
    {
      hide Switch.Switch.Valid;
      s := new Switch.Switch(fd, xidGenerator, ports);
      forall j | 0 <= j < |switches|
        ensures Views()[j] == old(Views())[j] && Health()[j] == old(Health())[j]
      {
        assert ViewOf(j) == old(ViewOf(j)) && Intact(j) == old(Intact(j));
      }
    }

    /** The device of a new connection. */
    method AddToGraph(fd: Word16)
      requires Graphed() && Apart() && |network.graph.order| < network.MAX_NETWORK_SIZE
      requires Admissible(network.graph, Join(fd)) && fd < 0x100
      modifies network`switchList, network`graph, network`chains, network.devices
      ensures Graphed() && network.devices == old(network.devices)
      ensures network.switchList == old(network.switchList) + [fd as int]
      ensures network.graph == AddDevice(old(network.graph), fd) && Views() == old(Views()) && Health() == old(Health())
    {
      hide Switch.Switch.Valid, Network.Controller.Valid;
      network.SetupNewSwitch(fd);
      forall j | 0 <= j < |switches|
        ensures Views()[j] == old(Views())[j] && Health()[j] == old(Health())[j]
      {
        OnlyOne(j);
        assert ViewOf(j) == old(ViewOf(j)) && Intact(j) == old(Intact(j));
      }
    }

    lemma NotInMemory()
      requires Valid()
      ensures this !in Memory() && network !in Memory()
    {
    }
  }
}
