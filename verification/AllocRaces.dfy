/** What the bucket test without the mutex in smartalloc.c can lead to: exactly when some interleaving
    of calls that free and calls that allocate dereferences an empty bucket. */
module AllocRaces {
  import opened AllocTable
  import opened AllocThreads
  import opened Wrappers

  // ---------------------------------------------------------------- calls

  /** The threads of `requests` have called free, each with its address, and those of `arrivals` are allocating,
      each with the block that `malloc` has given it. */
  function Called(s: State, requests: map<Tid, nat>, arrivals: map<Tid, Block>): (r: State)
    ensures r.table == s.table && r.mutex == s.mutex
  {
    s.(threads := map t | t in s.threads.Keys + requests.Keys + arrivals.Keys
                    :: if t in requests then FreeStart(requests[t])
                       else if t in arrivals then TrackStart(arrivals[t])
                       else s.threads[t])
  }

  /** A thread is in one call, and `malloc` returns unused memory. */
  ghost predicate Possible(table: Table, requests: map<Tid, nat>, arrivals: map<Tid, Block>)
    requires |table| == HASH_SIZE
  {
    && requests.Keys !! arrivals.Keys
    && (forall t, x :: t in arrivals && Tracks(table, x) ==> x.data != arrivals[t].data)
    && (forall t, u :: t in arrivals && u in arrivals && t != u ==> arrivals[t].data != arrivals[u].data)
  }

  /** The threads of a schedule take one step each, in this order. */
  function Continues(s: State, schedule: seq<Tid>): (r: Option<State>)
    requires |s.table| == HASH_SIZE
    ensures r.Some? ==> |r.value.table| == HASH_SIZE
    decreases |schedule|
  {
    if schedule == [] then Some(s)
    else
      var next := Advance(s, schedule[0]);
      if next.None? then None else Continues(next.value, schedule[1..])
  }

  lemma {:induction false} ContinuesAppend(s: State, first: seq<Tid>, rest: seq<Tid>)
    requires |s.table| == HASH_SIZE && Continues(s, first).Some?
    ensures Continues(s, first + rest) == Continues(Continues(s, first).value, rest)
    decreases |first|
  {
    if first == [] {
      assert first + rest == rest;
    } else {
      assert (first + rest)[1..] == first[1..] + rest;
      ContinuesAppend(Advance(s, first[0]).value, first[1..], rest);
    }
  }

  /** The schedule makes thread `u` dereference an empty bucket. */
  predicate Crashes(s: State, schedule: seq<Tid>, u: Tid)
    requires |s.table| == HASH_SIZE
  {
    var r := Continues(s, schedule);
    r.Some? && PcOf(r.value, u).Crashed?
  }

  /** The threads whose address belongs to bucket `h`. */
  function Requesters(requests: map<Tid, nat>, h: nat): set<Tid> {
    set t | t in requests && requests[t] % HASH_SIZE == h
  }

  ghost predicate Asked(address: nat, ts: set<Tid>, requests: map<Tid, nat>) {
    exists t :: t in ts && t in requests && requests[t] == address
  }

  /** Some of these threads asks for each block of the chain. */
  ghost predicate AllRequested(chain: seq<Block>, ts: set<Tid>, requests: map<Tid, nat>) {
    forall i :: 0 <= i < |chain| ==> Asked(chain[i].data, ts, requests)
  }

  /** A block is about to enter the bucket that one of these threads asks for. */
  ghost predicate Awaited(arrivals: map<Tid, Block>, h: nat, ts: set<Tid>, requests: map<Tid, nat>) {
    exists t :: t in arrivals && arrivals[t].data % HASH_SIZE == h && Asked(arrivals[t].data, ts, requests)
  }

  /** Other threads ask for each block in the bucket of the thread's address, and for at least one block that is in
      it or about to enter it. */
  ghost predicate OthersAsk(s: State, requests: map<Tid, nat>, arrivals: map<Tid, Block>, u: Tid)
    requires |s.table| == HASH_SIZE && u in requests
  {
    var h := requests[u] % HASH_SIZE;
    var others := Requesters(requests, h) - {u};
    AllRequested(s.table[h], others, requests) && (s.table[h] != [] || Awaited(arrivals, h, others, requests))
  }

  /** Each block of the bucket is asked for, and there are more requests than blocks; if it is empty, a block that is
      about to enter it is asked for, and there is another request. */
  ghost predicate Overrequested(s: State, requests: map<Tid, nat>, arrivals: map<Tid, Block>, h: nat)
    requires |s.table| == HASH_SIZE && h < HASH_SIZE
  {
    var ts := Requesters(requests, h);
    && AllRequested(s.table[h], ts, requests)
    && (if s.table[h] != [] then |s.table[h]| < |ts| else Awaited(arrivals, h, ts, requests) && 2 <= |ts|)
  }

  // ---------------------------------------------------------------- a schedule that crashes

  /** The threads of `ts` all stand at `pc` of their own address. */
  ghost predicate AllTested(s: State, ts: set<Tid>, requests: map<Tid, nat>, h: nat) {
    forall t :: t in ts ==> t in requests && requests[t] % HASH_SIZE == h && PcOf(s, t) == FreeTested(requests[t])
  }

  /** All threads of `ts` pass the test of a bucket that is not empty. */
  lemma {:induction false} PassTests(s: State, ts: set<Tid>, requests: map<Tid, nat>, h: nat)
    returns (schedule: seq<Tid>, end: State)
    requires |s.table| == HASH_SIZE && h < HASH_SIZE && s.table[h] != []
    requires forall t :: t in ts ==> t in requests && requests[t] % HASH_SIZE == h
    requires forall t :: t in ts ==> PcOf(s, t) == FreeStart(requests[t])
    ensures Continues(s, schedule) == Some(end) && end.table == s.table && end.mutex == s.mutex
    ensures AllTested(end, ts, requests, h) && forall u :: u !in ts ==> PcOf(end, u) == PcOf(s, u)
    decreases |ts|
  {
    if ts == {} {
      schedule, end := [], s;
    } else {
      var t :| t in ts;
      var next := Goto(s, t, FreeTested(requests[t]));
      assert Advance(s, t) == Some(next);
      var rest;
      rest, end := PassTests(next, ts - {t}, requests, h);
      schedule := [t] + rest;
      assert schedule[1..] == rest;
    }
  }

  /** A thread that has passed the test takes the first block out of the chain. */
  lemma TakesHead(s: State, t: Tid, a: nat) returns (schedule: seq<Tid>, end: State)
    requires |s.table| == HASH_SIZE && Chain(s, a) != [] && Chain(s, a)[0].data == a
    requires s.mutex == None && PcOf(s, t) == FreeTested(a)
    ensures Continues(s, schedule) == Some(end) && end.mutex == None
    ensures end.table == s.table[a % HASH_SIZE := Chain(s, a)[1..]]
    ensures forall u :: u != t ==> PcOf(end, u) == PcOf(s, u)
  {
    var b := Chain(s, a)[0];
    var s1 := Goto(s, t, FreeLocked(a)).(mutex := Some(t));
    var s2 := Goto(s1, t, FreeFound(a, 0));
    var rest := Chain(s, a)[..0] + Chain(s, a)[1..];
    assert rest == Chain(s, a)[1..];
    var s3 := Goto(s2, t, FreeUnlinked(b)).(table := s.table[a % HASH_SIZE := rest]);
    var s4 := Goto(s3, t, FreeCounted(b)).(total := (s.total - b.space) % ULONG);
    end := Goto(s4, t, FreeDone(b)).(mutex := None);
    assert Advance(s, t) == Some(s1);
    assert Advance(s1, t) == Some(s2);
    assert Advance(s2, t) == Some(s3);
    assert Advance(s3, t) == Some(s4);
    assert Advance(s4, t) == Some(end);
    schedule := [t, t, t, t, t];
    FiveSteps(s, s1, s2, s3, s4, end, t);
  }

  /** A thread that has a block brings it into its bucket. */
  lemma BringsBlock(s: State, t: Tid, b: Block) returns (schedule: seq<Tid>, end: State)
    requires |s.table| == HASH_SIZE && s.mutex == None && PcOf(s, t) == TrackStart(b)
    ensures Continues(s, schedule) == Some(end) && end.mutex == None
    ensures end.table == s.table[b.data % HASH_SIZE := [b] + Chain(s, b.data)]
    ensures forall u :: u != t ==> PcOf(end, u) == PcOf(s, u)
  {
    var next := Chain(s, b.data);
    var s1 := Goto(s, t, TrackLocked(b)).(mutex := Some(t));
    var s2 := Goto(s1, t, TrackCounted(b)).(total := (s.total + b.space) % ULONG);
    var s3 := Goto(s2, t, TrackReady(b, next));
    var s4 := Goto(s3, t, TrackLinked(b)).(table := s.table[b.data % HASH_SIZE := [b] + next]);
    end := Goto(s4, t, Idle).(mutex := None);
    assert Advance(s, t) == Some(s1);
    assert Advance(s1, t) == Some(s2);
    assert Advance(s2, t) == Some(s3);
    assert Advance(s3, t) == Some(s4);
    assert Advance(s4, t) == Some(end);
    schedule := [t, t, t, t, t];
    FiveSteps(s, s1, s2, s3, s4, end, t);
  }

  lemma FiveSteps(s: State, s1: State, s2: State, s3: State, s4: State, s5: State, t: Tid)
    requires |s.table| == |s1.table| == |s2.table| == |s3.table| == |s4.table| == |s5.table| == HASH_SIZE
    requires Advance(s, t) == Some(s1) && Advance(s1, t) == Some(s2) && Advance(s2, t) == Some(s3)
    requires Advance(s3, t) == Some(s4) && Advance(s4, t) == Some(s5)
    ensures Continues(s, [t, t, t, t, t]) == Some(s5)
  {
    hide Advance;
    assert [t, t, t, t, t][1..] == [t, t, t, t] && [t, t, t, t][1..] == [t, t, t] && [t, t, t][1..] == [t, t];
    assert [t, t][1..] == [t] && [t][1..] == [];
    assert Continues(s4, [t]) == Some(s5);
    assert Continues(s3, [t, t]) == Some(s5);
    assert Continues(s2, [t, t, t]) == Some(s5);
    assert Continues(s1, [t, t, t, t]) == Some(s5);
  }

  lemma FindsEmptyBucket(s: State, u: Tid, a: nat)
    requires |s.table| == HASH_SIZE && Chain(s, a) == [] && s.mutex == None && PcOf(s, u) == FreeTested(a)
    ensures Crashes(s, [u, u], u)
  {
    var locked := Goto(s, u, FreeLocked(a)).(mutex := Some(u));
    var crashed := Goto(locked, u, Crashed);
    assert Advance(s, u) == Some(locked);
    assert Advance(locked, u) == Some(crashed);
    assert [u, u][1..] == [u] && [u][1..] == [];
    assert Continues(crashed, []) == Some(crashed);
    assert Continues(locked, [u]) == Some(crashed);
  }

  predicate Separate(chain: seq<Block>) {
    forall i, j :: 0 <= i < j < |chain| ==> chain[i].data != chain[j].data
  }

  /** Threads that have passed the test empty the bucket one by one, and thread `u`, which has passed it
      as well, dereferences it. */
  lemma {:induction false} EmptyAndCrash(s: State, ts: set<Tid>, u: Tid, requests: map<Tid, nat>, h: nat)
    returns (schedule: seq<Tid>)
    requires |s.table| == HASH_SIZE && h < HASH_SIZE && Separate(s.table[h]) && s.mutex == None
    requires AllTested(s, ts + {u}, requests, h) && u !in ts && AllRequested(s.table[h], ts, requests)
    ensures Crashes(s, schedule, u)
    decreases |s.table[h]|
  {
    assert u in ts + {u};
    if s.table[h] == [] {
      schedule := [u, u];
      FindsEmptyBucket(s, u, requests[u]);
    } else {
      var chain := s.table[h];
      assert Asked(chain[0].data, ts, requests);
      var t :| t in ts && t in requests && requests[t] == chain[0].data;
      assert t in ts + {u};
      var first, next := TakesHead(s, t, requests[t]);
      HeadTaken(chain, ts, requests, t);
      assert forall w :: w in ts - {t} + {u} ==> w in ts + {u} && w != t;
      var rest := EmptyAndCrash(next, ts - {t}, u, requests, h);
      schedule := first + rest;
      ContinuesAppend(s, first, rest);
    }
  }

  lemma HeadTaken(chain: seq<Block>, ts: set<Tid>, requests: map<Tid, nat>, t: Tid)
    requires Separate(chain) && chain != []
    requires t in ts && t in requests && requests[t] == chain[0].data && AllRequested(chain, ts, requests)
    ensures Separate(chain[1..]) && AllRequested(chain[1..], ts - {t}, requests)
  {
    var rest := chain[1..];
    forall i | 0 <= i < |rest|
      ensures Asked(rest[i].data, ts - {t}, requests)
    {
      var j := i + 1;
      assert rest[i] == chain[j] && chain[0].data != chain[j].data && Asked(chain[j].data, ts, requests);
      var u :| u in ts && u in requests && requests[u] == chain[j].data;
      assert u in ts - {t};
    }
  }

  // ---------------------------------------------------------------- what every run keeps

  /** The thread has done its part: what it took out, if anything, is out. */
  predicate Past(pc: Pc) {
    pc.FreeUnlinked? || pc.FreeCounted? || pc.FreeDone? || pc.Idle?
  }

  /** The thread has seen a block in its bucket. */
  predicate HasSeen(pc: Pc) {
    pc.FreeTested? || pc.FreeLocked? || pc.FreeScan? || pc.FreeFound? || pc.Crashed?
  }

  predicate InFree(pc: Pc) {
    || pc.Idle? || pc.FreeStart? || pc.FreeTested? || pc.FreeLocked? || pc.FreeScan? || pc.FreeFound?
    || pc.FreeUnlinked? || pc.FreeCounted? || pc.FreeDone? || pc.FreeMiss? || pc.Reported? || pc.Crashed?
  }

  /** A scan has passed no matching block, and a hit is where it says. */
  predicate PositionHolds(s: State, pc: Pc)
    requires |s.table| == HASH_SIZE
  {
    && (pc.FreeScan? ==> pc.at < |Chain(s, pc.address)|
                         && forall j :: 0 <= j <= pc.at ==> Chain(s, pc.address)[j].data != pc.address)
    && (pc.FreeFound? ==> pc.at < |Chain(s, pc.address)| && Chain(s, pc.address)[pc.at].data == pc.address
                          && forall j :: 0 <= j < pc.at ==> Chain(s, pc.address)[j].data != pc.address)
  }

  /** The thread has brought its block into the table. */
  predicate Brought(pc: Pc) {
    pc.TrackLinked? || pc.Idle?
  }

  predicate InTrack(pc: Pc, b: Block) {
    || pc.Idle? || pc == TrackStart(b) || pc == TrackLocked(b) || pc == TrackCounted(b)
    || (pc.TrackReady? && pc.block == b) || pc == TrackLinked(b)
  }

  predicate TrackPcInv(b: Block, s: State, t: Tid)
    requires |s.table| == HASH_SIZE
  {
    var pc := PcOf(s, t);
    InTrack(pc, b) && (Holds(pc) <==> s.mutex == Some(t)) && (pc.TrackReady? ==> pc.next == Chain(s, b.data))
  }

  /** A block has entered bucket `h`. */
  ghost predicate Entered(arrivals: map<Tid, Block>, s: State, h: nat) {
    exists t :: t in arrivals && arrivals[t].data % HASH_SIZE == h && Brought(PcOf(s, t))
  }

  ghost predicate FreePcInv(start: State, requests: map<Tid, nat>, arrivals: map<Tid, Block>, s: State, t: Tid)
    requires |s.table| == |start.table| == HASH_SIZE
  {
    var pc := PcOf(s, t);
    && InFree(pc) && (t !in requests ==> pc.Idle?)
    && (Holds(pc) || pc.Crashed? <==> s.mutex == Some(t))
    && (Claimed(pc).Some? ==> Claimed(pc).value == requests[t])
    && PositionHolds(s, pc)
    && (HasSeen(pc) ==> Chain(start, requests[t]) != [] || Entered(arrivals, s, requests[t] % HASH_SIZE))
    && (pc.Crashed? ==> Chain(s, requests[t]) == [])
  }

  ghost predicate ThreadInv(start: State, requests: map<Tid, nat>, arrivals: map<Tid, Block>, s: State, t: Tid)
    requires |s.table| == |start.table| == HASH_SIZE
  {
    if t in arrivals then TrackPcInv(arrivals[t], s, t) else FreePcInv(start, requests, arrivals, s, t)
  }

  /** Some thread that asked for the block has done its part. */
  ghost predicate TakenOut(requests: map<Tid, nat>, s: State, x: Block) {
    exists t :: t in requests && requests[t] == x.data && Past(PcOf(s, t))
  }

  /** The block was there at the start or has been brought. */
  ghost predicate HasBeen(start: State, arrivals: map<Tid, Block>, s: State, x: Block)
    requires |start.table| == HASH_SIZE
  {
    Tracks(start.table, x) || exists t :: t in arrivals && arrivals[t] == x && Brought(PcOf(s, t))
  }

  ghost predicate FreeInv(start: State, requests: map<Tid, nat>, arrivals: map<Tid, Block>, s: State) {
    && |s.table| == |start.table| == HASH_SIZE && DistinctAddresses(s.table)
    && Possible(start.table, requests, arrivals)
    && (forall x :: Tracks(s.table, x) ==> HasBeen(start, arrivals, s, x))
    && (forall x :: HasBeen(start, arrivals, s, x) && !Tracks(s.table, x) ==> TakenOut(requests, s, x))
    && (forall t: Tid :: ThreadInv(start, requests, arrivals, s, t))
  }

  lemma CalledKeepsInv(s: State, requests: map<Tid, nat>, arrivals: map<Tid, Block>)
    requires Quiet(s) && Possible(s.table, requests, arrivals)
    ensures FreeInv(s, requests, arrivals, Called(s, requests, arrivals))
  {
    var called := Called(s, requests, arrivals);
    forall t: Tid
      ensures ThreadInv(s, requests, arrivals, called, t)
    {
      assert PcOf(s, t) == Idle;
    }
  }

  lemma FreeStepKeepsInv(start: State, requests: map<Tid, nat>, arrivals: map<Tid, Block>, s: State, t: Tid, s': State)
    requires FreeInv(start, requests, arrivals, s) && Advance(s, t) == Some(s')
    ensures FreeInv(start, requests, arrivals, s')
  {
    assert ThreadInv(start, requests, arrivals, s, t);
    if PcOf(s, t).FreeFound? {
      TakingKeepsInv(start, requests, arrivals, s, t, s');
    } else if PcOf(s, t).TrackReady? {
      BringingKeepsInv(start, requests, arrivals, s, t, s');
    } else {
      PassingKeepsInv(start, requests, arrivals, s, t, s');
    }
  }

  /** A step that leaves the chains alone. */
  lemma PassingKeepsInv(start: State, requests: map<Tid, nat>, arrivals: map<Tid, Block>, s: State, t: Tid, s': State)
    requires FreeInv(start, requests, arrivals, s) && Advance(s, t) == Some(s')
    requires !PcOf(s, t).FreeFound? && !PcOf(s, t).TrackReady?
    ensures FreeInv(start, requests, arrivals, s')
  {
    assert s'.table == s.table && s'.threads == s.threads[t := PcOf(s', t)];
    assert ThreadInv(start, requests, arrivals, s, t);
    assert Brought(PcOf(s', t)) && t in arrivals ==> Brought(PcOf(s, t));
    assert Past(PcOf(s, t)) ==> Past(PcOf(s', t));
    SameBeen(start, requests, arrivals, s, s');
    forall u: Tid
      ensures ThreadInv(start, requests, arrivals, s', u)
    {
      PassingThread(start, requests, arrivals, s, t, s', u);
    }
  }

  lemma SameBeen(start: State, requests: map<Tid, nat>, arrivals: map<Tid, Block>, s: State, s': State)
    requires |start.table| == HASH_SIZE
    requires forall t :: t in arrivals ==> (Brought(PcOf(s', t)) <==> Brought(PcOf(s, t)))
    requires forall t :: t in requests && Past(PcOf(s, t)) ==> Past(PcOf(s', t))
    ensures forall x :: HasBeen(start, arrivals, s', x) <==> HasBeen(start, arrivals, s, x)
    ensures forall x :: TakenOut(requests, s, x) ==> TakenOut(requests, s', x)
    ensures forall h :: Entered(arrivals, s, h) ==> Entered(arrivals, s', h)
  {
  }

  lemma PassingThread(start: State, requests: map<Tid, nat>, arrivals: map<Tid, Block>, s: State, t: Tid, s': State,
                      u: Tid)
    requires FreeInv(start, requests, arrivals, s) && Advance(s, t) == Some(s')
    requires !PcOf(s, t).FreeFound? && !PcOf(s, t).TrackReady?
    requires forall h :: Entered(arrivals, s, h) ==> Entered(arrivals, s', h)
    ensures ThreadInv(start, requests, arrivals, s', u)
  {
    assert ThreadInv(start, requests, arrivals, s, t) && ThreadInv(start, requests, arrivals, s, u);
    hide FreePcInv, TrackPcInv, Entered, Advance, FreeInv;
    if u != t {
      OtherThread(start, requests, arrivals, s, t, s', u);
    } else if t in arrivals {
      OwnTrackStep(arrivals[t], s, t, s');
    } else {
      SeenHasBeen(start, requests, arrivals, s, t);
      OwnFreeStep(start, requests, arrivals, s, t, s');
    }
  }

  lemma OtherThread(start: State, requests: map<Tid, nat>, arrivals: map<Tid, Block>, s: State, t: Tid, s': State,
                    u: Tid)
    requires |s.table| == |start.table| == HASH_SIZE && Advance(s, t) == Some(s') && u != t
    requires !PcOf(s, t).FreeFound? && !PcOf(s, t).TrackReady?
    requires ThreadInv(start, requests, arrivals, s, t) && ThreadInv(start, requests, arrivals, s, u)
    requires forall h :: Entered(arrivals, s, h) ==> Entered(arrivals, s', h)
    ensures ThreadInv(start, requests, arrivals, s', u)
  {
    OnlyOwnMutex(start, requests, arrivals, s, t, s', u);
    hide Advance, Entered;
  }

  lemma OnlyOwnMutex(start: State, requests: map<Tid, nat>, arrivals: map<Tid, Block>, s: State, t: Tid, s': State,
                     u: Tid)
    requires |s.table| == |start.table| == HASH_SIZE && Advance(s, t) == Some(s') && u != t
    requires !PcOf(s, t).FreeFound? && !PcOf(s, t).TrackReady? && ThreadInv(start, requests, arrivals, s, t)
    ensures s'.table == s.table && PcOf(s', u) == PcOf(s, u) && (s'.mutex == Some(u) <==> s.mutex == Some(u))
  {
    hide Entered, PositionHolds;
  }

  lemma OwnTrackStep(b: Block, s: State, t: Tid, s': State)
    requires |s.table| == HASH_SIZE && TrackPcInv(b, s, t) && Advance(s, t) == Some(s') && !PcOf(s, t).TrackReady?
    ensures |s'.table| == HASH_SIZE && TrackPcInv(b, s', t)
  {
  }

  lemma OwnFreeStep(start: State, requests: map<Tid, nat>, arrivals: map<Tid, Block>, s: State, t: Tid, s': State)
    requires |s.table| == |start.table| == HASH_SIZE && FreePcInv(start, requests, arrivals, s, t)
    requires Advance(s, t) == Some(s') && !PcOf(s, t).FreeFound?
    requires forall a: nat :: Chain(s, a) != [] ==> Chain(start, a) != [] || Entered(arrivals, s, a % HASH_SIZE)
    requires forall h :: Entered(arrivals, s, h) ==> Entered(arrivals, s', h)
    ensures |s'.table| == HASH_SIZE && FreePcInv(start, requests, arrivals, s', t)
  {
    hide Entered;
  }

  /** A bucket that is not empty now was not empty at the start, or a block has entered it. */
  lemma SeenHasBeen(start: State, requests: map<Tid, nat>, arrivals: map<Tid, Block>, s: State, t: Tid)
    requires FreeInv(start, requests, arrivals, s)
    ensures forall a: nat :: Chain(s, a) != [] ==> Chain(start, a) != [] || Entered(arrivals, s, a % HASH_SIZE)
  {
    forall a: nat | Chain(s, a) != []
      ensures Chain(start, a) != [] || Entered(arrivals, s, a % HASH_SIZE)
    {
      var x := Chain(s, a)[0];
      assert Tracks(s.table, x) && x.data % HASH_SIZE == a % HASH_SIZE;
      assert HasBeen(start, arrivals, s, x);
    }
  }

  /** The step that takes a found block out of its chain. */
  lemma TakingKeepsInv(start: State, requests: map<Tid, nat>, arrivals: map<Tid, Block>, s: State, t: Tid, s': State)
    requires FreeInv(start, requests, arrivals, s) && Advance(s, t) == Some(s') && PcOf(s, t).FreeFound?
    ensures FreeInv(start, requests, arrivals, s')
  {
    assert ThreadInv(start, requests, arrivals, s, t) && t !in arrivals;
    var a, at := PcOf(s, t).address, PcOf(s, t).at;
    PositionIs(Chain(s, a), a, at);
    assert s'.table == Untrack(s.table, a);
    TracksAfterUntrack(s.table, a);
    assert forall u: Tid :: u != t ==> PcOf(s', u) == PcOf(s, u);
    SameBeen(start, requests, arrivals, s, s');
    forall u: Tid
      ensures ThreadInv(start, requests, arrivals, s', u)
    {
      assert ThreadInv(start, requests, arrivals, s, u);
      assert u != t ==> !Holds(PcOf(s, u)) && !PcOf(s, u).Crashed?;
    }
    forall x | HasBeen(start, arrivals, s', x) && !Tracks(s'.table, x)
      ensures TakenOut(requests, s', x)
    {
      if Tracks(s.table, x) {
        assert requests[t] == x.data && Past(PcOf(s', t));
      }
    }
  }

  /** The step that brings a block into its chain. */
  lemma BringingKeepsInv(start: State, requests: map<Tid, nat>, arrivals: map<Tid, Block>, s: State, t: Tid, s': State)
    requires FreeInv(start, requests, arrivals, s) && Advance(s, t) == Some(s') && PcOf(s, t).TrackReady?
    ensures FreeInv(start, requests, arrivals, s')
  {
    assert ThreadInv(start, requests, arrivals, s, t) && t in arrivals;
    var b := arrivals[t];
    assert s'.table == Track(s.table, b);
    NotYetBrought(start, requests, arrivals, s, t);
    TracksAfterTrack(s.table, b);
    assert forall u: Tid :: u != t ==> PcOf(s', u) == PcOf(s, u);
    BroughtMore(start, requests, arrivals, s, t, s');
    forall u: Tid
      ensures ThreadInv(start, requests, arrivals, s', u)
    {
      assert ThreadInv(start, requests, arrivals, s, u);
      assert u != t ==> !Holds(PcOf(s, u)) && !PcOf(s, u).Crashed?;
    }
  }

  lemma NotYetBrought(start: State, requests: map<Tid, nat>, arrivals: map<Tid, Block>, s: State, t: Tid)
    requires FreeInv(start, requests, arrivals, s) && t in arrivals && !Brought(PcOf(s, t))
    ensures forall x :: Tracks(s.table, x) ==> x.data != arrivals[t].data
  {
    forall x | Tracks(s.table, x)
      ensures x.data != arrivals[t].data
    {
      assert HasBeen(start, arrivals, s, x);
    }
  }

  lemma BroughtMore(start: State, requests: map<Tid, nat>, arrivals: map<Tid, Block>, s: State, t: Tid, s': State)
    requires |start.table| == HASH_SIZE && t in arrivals && t !in requests
    requires Brought(PcOf(s', t)) && forall u: Tid :: u != t ==> PcOf(s', u) == PcOf(s, u)
    ensures forall x :: HasBeen(start, arrivals, s', x) <==> HasBeen(start, arrivals, s, x) || x == arrivals[t]
    ensures forall x :: TakenOut(requests, s, x) ==> TakenOut(requests, s', x)
    ensures forall h :: Entered(arrivals, s, h) ==> Entered(arrivals, s', h)
  {
    forall x | TakenOut(requests, s, x)
      ensures TakenOut(requests, s', x)
    {
      var w :| w in requests && requests[w] == x.data && Past(PcOf(s, w));
      assert Past(PcOf(s', w));
    }
    forall h | Entered(arrivals, s, h)
      ensures Entered(arrivals, s', h)
    {
      var w :| w in arrivals && arrivals[w].data % HASH_SIZE == h && Brought(PcOf(s, w));
      assert Brought(PcOf(s', w));
    }
    forall x
      ensures HasBeen(start, arrivals, s', x) <==> HasBeen(start, arrivals, s, x) || x == arrivals[t]
    {
      if w :| w in arrivals && arrivals[w] == x && Brought(PcOf(s, w)) {
        assert Brought(PcOf(s', w));
      }
    }
  }

  lemma {:induction false} RunKeepsFreeInv(start: State, requests: map<Tid, nat>, arrivals: map<Tid, Block>, s: State,
                                           schedule: seq<Tid>)
    requires FreeInv(start, requests, arrivals, s) && Continues(s, schedule).Some?
    ensures FreeInv(start, requests, arrivals, Continues(s, schedule).value)
    decreases |schedule|
  {
    assert |s.table| == |start.table| == HASH_SIZE;
    hide FreeInv, Advance;
    if schedule != [] {
      var next := Advance(s, schedule[0]).value;
      FreeStepKeepsInv(start, requests, arrivals, s, schedule[0], next);
      RunKeepsFreeInv(start, requests, arrivals, next, schedule[1..]);
    }
  }

  // ---------------------------------------------------------------- the exact condition

  /** Distinct addresses, each of them that of some thread of `past`. */
  lemma {:induction false} AsManyThreads(chain: seq<Block>, past: set<Tid>, requests: map<Tid, nat>)
    requires Separate(chain) && AllRequested(chain, past, requests)
    ensures |chain| <= |past|
  {
    if chain != [] {
      var n := |chain| - 1;
      assert Asked(chain[n].data, past, requests);
      var t :| t in past && t in requests && requests[t] == chain[n].data;
      forall i | 0 <= i < n
        ensures Asked(chain[..n][i].data, past - {t}, requests)
      {
        assert Asked(chain[i].data, past, requests) && chain[i].data != chain[n].data;
        var u :| u in past && u in requests && requests[u] == chain[i].data;
        assert u in past - {t};
      }
      AsManyThreads(chain[..n], past - {t}, requests);
    }
  }

  /** A thread that has crashed has met a bucket whose blocks others have asked for. */
  lemma CrashNeedsOthers(start: State, requests: map<Tid, nat>, arrivals: map<Tid, Block>, s: State, u: Tid)
    requires FreeInv(start, requests, arrivals, s) && DistinctAddresses(start.table) && PcOf(s, u).Crashed?
    ensures u in requests && OthersAsk(start, requests, arrivals, u)
  {
    assert ThreadInv(start, requests, arrivals, s, u);
    var h := requests[u] % HASH_SIZE;
    var chain, others := start.table[h], Requesters(requests, h) - {u};
    forall i | 0 <= i < |chain|
      ensures Asked(chain[i].data, others, requests)
    {
      assert Tracks(start.table, chain[i]);
      GoneIsAsked(start, requests, arrivals, s, u, chain[i]);
    }
    if chain == [] {
      var t :| t in arrivals && arrivals[t].data % HASH_SIZE == h && Brought(PcOf(s, t));
      assert HasBeen(start, arrivals, s, arrivals[t]);
      GoneIsAsked(start, requests, arrivals, s, u, arrivals[t]);
    }
  }

  lemma GoneIsAsked(start: State, requests: map<Tid, nat>, arrivals: map<Tid, Block>, s: State, u: Tid, x: Block)
    requires FreeInv(start, requests, arrivals, s) && u in requests && PcOf(s, u).Crashed?
    requires HasBeen(start, arrivals, s, x) && x.data % HASH_SIZE == requests[u] % HASH_SIZE
    ensures Asked(x.data, Requesters(requests, requests[u] % HASH_SIZE) - {u}, requests)
  {
    assert ThreadInv(start, requests, arrivals, s, u);
    assert !Tracks(s.table, x);
    assert TakenOut(requests, s, x);
    var t :| t in requests && requests[t] == x.data && Past(PcOf(s, t));
    assert t in Requesters(requests, requests[u] % HASH_SIZE) - {u};
  }

  /** Nothing is going on. */
  ghost predicate Quiet(s: State) {
    DistinctAddresses(s.table) && s.mutex == None && forall t: Tid :: PcOf(s, t) == Idle
  }

  /** Whenever a run that keeps the rules comes to rest, its state is quiet. */
  lemma RestingRunIsQuiet(schedule: seq<(Tid, Choice)>)
    requires AllocThreads.Run(schedule).Some? && forall t: Tid :: PcOf(AllocThreads.Run(schedule).value, t) == Idle
    ensures Quiet(AllocThreads.Run(schedule).value)
  {
    RunKeepsInv(schedule);
    var s := AllocThreads.Run(schedule).value;
    assert forall t: Tid :: PcInv(s, t) ==> s.mutex != Some(t);
  }

  /** From a quiet state, a call to free dereferences an empty bucket in some interleaving exactly when
      other calls ask for each block in its bucket, and for at least one that is in it or about to enter it. */
  lemma ThreadCrashesExactly(s: State, requests: map<Tid, nat>, arrivals: map<Tid, Block>, u: Tid)
    requires Quiet(s) && Possible(s.table, requests, arrivals)
    ensures (exists schedule :: Crashes(Called(s, requests, arrivals), schedule, u))
       <==> u in requests && OthersAsk(s, requests, arrivals, u)
  {
    var called := Called(s, requests, arrivals);
    if schedule :| Crashes(called, schedule, u) {
      CalledKeepsInv(s, requests, arrivals);
      RunKeepsFreeInv(s, requests, arrivals, called, schedule);
      CrashNeedsOthers(s, requests, arrivals, Continues(called, schedule).value, u);
    }
    if u in requests && OthersAsk(s, requests, arrivals, u) {
      var schedule := CallsCrash(s, requests, arrivals, u);
    }
  }

  lemma CalledWait(s: State, requests: map<Tid, nat>, arrivals: map<Tid, Block>, h: nat)
    requires requests.Keys !! arrivals.Keys
    ensures forall t :: t in Requesters(requests, h) <==> t in requests && requests[t] % HASH_SIZE == h
    ensures forall t :: t in Requesters(requests, h)
                        ==> PcOf(Called(s, requests, arrivals), t) == FreeStart(requests[t])
    ensures forall t :: t in arrivals ==> PcOf(Called(s, requests, arrivals), t) == TrackStart(arrivals[t])
  {
  }

  lemma CallsCrash(s: State, requests: map<Tid, nat>, arrivals: map<Tid, Block>, u: Tid) returns (schedule: seq<Tid>)
    requires |s.table| == HASH_SIZE && s.mutex == None && requests.Keys !! arrivals.Keys
    requires u in requests && OthersAsk(s, requests, arrivals, u) && Separate(s.table[requests[u] % HASH_SIZE])
    ensures Crashes(Called(s, requests, arrivals), schedule, u)
  {
    var called := Called(s, requests, arrivals);
    CalledWait(s, requests, arrivals, requests[u] % HASH_SIZE);
    hide Continues, Advance, Called, PcOf, Requesters, AllRequested, Separate;
    var begin, filled := Fills(called, requests, arrivals, u);
    var rest := FilledCrash(filled, requests, u);
    ContinuesAppend(called, begin, rest);
    schedule := begin + rest;
  }

  /** If the bucket is empty, a block enters it that others ask for. */
  lemma Fills(s: State, requests: map<Tid, nat>, arrivals: map<Tid, Block>, u: Tid)
    returns (schedule: seq<Tid>, end: State)
    requires |s.table| == HASH_SIZE && s.mutex == None && requests.Keys !! arrivals.Keys
    requires u in requests && OthersAsk(s, requests, arrivals, u) && Separate(s.table[requests[u] % HASH_SIZE])
    requires forall t :: t in Requesters(requests, requests[u] % HASH_SIZE) ==> PcOf(s, t) == FreeStart(requests[t])
    requires forall t :: t in arrivals ==> PcOf(s, t) == TrackStart(arrivals[t])
    ensures Continues(s, schedule) == Some(end) && |end.table| == HASH_SIZE && end.mutex == None
    ensures var h := requests[u] % HASH_SIZE;
            && end.table[h] != [] && Separate(end.table[h])
            && AllRequested(end.table[h], Requesters(requests, h) - {u}, requests)
            && forall t :: t in Requesters(requests, h) ==> PcOf(end, t) == FreeStart(requests[t])
  {
    var h := requests[u] % HASH_SIZE;
    var others := Requesters(requests, h) - {u};
    if s.table[h] == [] {
      var t :| t in arrivals && arrivals[t].data % HASH_SIZE == h && Asked(arrivals[t].data, others, requests);
      assert t !in Requesters(requests, h);
      hide Continues, Advance, PcOf, Requesters, Asked;
      schedule, end := BringsBlock(s, t, arrivals[t]);
      assert end.table[h] == [arrivals[t]];
    } else {
      hide Continues, Advance, PcOf, Requesters;
      schedule, end := [], s;
      NoSteps(s);
    }
  }

  lemma NoSteps(s: State)
    requires |s.table| == HASH_SIZE
    ensures Continues(s, []) == Some(s)
  {
  }

  /** With blocks in the bucket, each of which others ask for. */
  lemma FilledCrash(s: State, requests: map<Tid, nat>, u: Tid) returns (schedule: seq<Tid>)
    requires |s.table| == HASH_SIZE && s.mutex == None && u in requests
    requires var h := requests[u] % HASH_SIZE;
             && s.table[h] != [] && Separate(s.table[h])
             && AllRequested(s.table[h], Requesters(requests, h) - {u}, requests)
             && forall t :: t in Requesters(requests, h) ==> PcOf(s, t) == FreeStart(requests[t])
    ensures Crashes(s, schedule, u)
  {
    var h := requests[u] % HASH_SIZE;
    var ts := Requesters(requests, h);
    assert forall t :: t in ts <==> t in requests && requests[t] % HASH_SIZE == h;
    hide Separate, AllRequested, AllTested, Continues, Advance, PcOf, Requesters;
    var first, tested := PassTests(s, ts, requests, h);
    assert ts - {u} + {u} == ts;
    var rest := EmptyAndCrash(tested, ts - {u}, u, requests, h);
    ContinuesAppend(s, first, rest);
    schedule := first + rest;
  }

  /** From a quiet state, calls that free and calls that allocate can dereference an empty bucket in some interleaving
      exactly when a bucket has each of its blocks asked for and more requests than blocks, or is empty, and
      a block that is about to enter it is asked for and there is another request. */
  lemma CrashExactly(s: State, requests: map<Tid, nat>, arrivals: map<Tid, Block>)
    requires Quiet(s) && Possible(s.table, requests, arrivals)
    ensures (exists schedule, u :: Crashes(Called(s, requests, arrivals), schedule, u))
       <==> exists h :: 0 <= h < HASH_SIZE && Overrequested(s, requests, arrivals, h)
  {
    if schedule, u :| Crashes(Called(s, requests, arrivals), schedule, u) {
      ThreadCrashesExactly(s, requests, arrivals, u);
      OthersAskForAll(s, requests, arrivals, u);
    }
    if h :| 0 <= h < HASH_SIZE && Overrequested(s, requests, arrivals, h) {
      var u := OneTooMany(s, requests, arrivals, h);
      ThreadCrashesExactly(s, requests, arrivals, u);
    }
  }

  lemma OneTooMany(s: State, requests: map<Tid, nat>, arrivals: map<Tid, Block>, h: nat) returns (u: Tid)
    requires DistinctAddresses(s.table) && h < HASH_SIZE && Overrequested(s, requests, arrivals, h)
    ensures u in requests && OthersAsk(s, requests, arrivals, u)
  {
    var ts := Requesters(requests, h);
    if s.table[h] != [] {
      u := SpareRequester(s.table[h], ts, requests);
    } else {
      var t :| t in arrivals && arrivals[t].data % HASH_SIZE == h && Asked(arrivals[t].data, ts, requests);
      var chain := [arrivals[t]];
      u := SpareRequester(chain, ts, requests);
      assert Asked(chain[0].data, ts - {u}, requests);
    }
  }

  lemma OthersAskForAll(s: State, requests: map<Tid, nat>, arrivals: map<Tid, Block>, u: Tid)
    requires DistinctAddresses(s.table) && u in requests && OthersAsk(s, requests, arrivals, u)
    ensures Overrequested(s, requests, arrivals, requests[u] % HASH_SIZE)
  {
    var h := requests[u] % HASH_SIZE;
    var chain, ts := s.table[h], Requesters(requests, h);
    assert forall a :: Asked(a, ts - {u}, requests) ==> Asked(a, ts, requests);
    if chain != [] {
      AsManyThreads(chain, ts - {u}, requests);
    } else {
      var t :| t in arrivals && arrivals[t].data % HASH_SIZE == h && Asked(arrivals[t].data, ts - {u}, requests);
      AsManyThreads([arrivals[t]], ts - {u}, requests);
    }
  }

  /** With more threads than blocks, one of them is not needed. */
  lemma {:induction false} SpareRequester(chain: seq<Block>, ts: set<Tid>, requests: map<Tid, nat>) returns (u: Tid)
    requires Separate(chain) && AllRequested(chain, ts, requests) && |chain| < |ts|
    ensures u in ts && AllRequested(chain, ts - {u}, requests)
  {
    if chain == [] {
      u :| u in ts;
    } else {
      assert Asked(chain[0].data, ts, requests);
      var t :| t in ts && t in requests && requests[t] == chain[0].data;
      HeadTaken(chain, ts, requests, t);
      u := SpareRequester(chain[1..], ts - {t}, requests);
      forall i | 0 <= i < |chain|
        ensures Asked(chain[i].data, ts - {u}, requests)
      {
        if i > 0 {
          assert chain[1..][i - 1] == chain[i] && Asked(chain[1..][i - 1].data, ts - {t} - {u}, requests);
        }
      }
    }
  }

  /** A run of the steps of the protocol from any state, with the beginnings of the calls in it. */
  function Steps(s: State, schedule: seq<(Tid, Choice)>): (r: Option<State>)
    requires |s.table| == HASH_SIZE
    ensures r.Some? ==> |r.value.table| == HASH_SIZE
    decreases |schedule|
  {
    if schedule == [] then Some(s)
    else
      var next := Step(s, schedule[0].0, schedule[0].1);
      if next.None? then None else Steps(next.value, schedule[1..])
  }

  function AsSteps(schedule: seq<Tid>): seq<(Tid, Choice)> {
    seq(|schedule|, i requires 0 <= i < |schedule| => (schedule[i], Continue))
  }

  lemma {:induction false} ContinuesAreSteps(s: State, schedule: seq<Tid>)
    requires |s.table| == HASH_SIZE
    ensures Steps(s, AsSteps(schedule)) == Continues(s, schedule)
    decreases |schedule|
  {
    hide Advance;
    if schedule != [] {
      assert AsSteps(schedule)[1..] == AsSteps(schedule[1..]);
      assert Step(s, schedule[0], Continue) == Advance(s, schedule[0]);
      if Advance(s, schedule[0]).Some? {
        ContinuesAreSteps(Advance(s, schedule[0]).value, schedule[1..]);
      }
    }
  }

  /** Nothing happens but frees of one address. */
  ghost predicate OnlyFrees(schedule: seq<(Tid, Choice)>, address: nat) {
    forall i :: 0 <= i < |schedule| ==> schedule[i].1 == Continue || schedule[i].1 == BeginFree(address)
  }

  /** The smallest case: two threads that free the only block of a bucket. The second passes the test
      without the mutex before the first has unlinked the block, and then dereferences an empty bucket. */
  lemma DoubleFreeCrashes(s: State, b: Block, t: Tid, u: Tid)
    requires |s.table| == HASH_SIZE && Chain(s, b.data) == [b] && s.mutex == None
    requires t != u && PcOf(s, t) == Idle && PcOf(s, u) == Idle
    ensures exists schedule :: OnlyFrees(schedule, b.data) && Steps(s, schedule).Some?
                            && PcOf(Steps(s, schedule).value, u) == Crashed
  {
    hide Step, Crashes, Called;
    var requests := map[t := b.data, u := b.data];
    BothAsk(s, b, t, u);
    var rest := CallsCrash(s, requests, map[], u);
    ContinuesAreSteps(Called(s, requests, map[]), rest);
    BothCall(s, b.data, t, u, AsSteps(rest));
    assert Steps(Called(s, requests, map[]), AsSteps(rest)) == Continues(Called(s, requests, map[]), rest);
    CrashedAtEnd(Called(s, requests, map[]), rest, u);
    assert OnlyFrees([(t, BeginFree(b.data)), (u, BeginFree(b.data))] + AsSteps(rest), b.data);
  }

  lemma CrashedAtEnd(s: State, schedule: seq<Tid>, u: Tid)
    requires |s.table| == HASH_SIZE && Crashes(s, schedule, u)
    ensures Continues(s, schedule).Some? && PcOf(Continues(s, schedule).value, u) == Crashed
  {
  }

  lemma BothAsk(s: State, b: Block, t: Tid, u: Tid)
    requires |s.table| == HASH_SIZE && Chain(s, b.data) == [b] && t != u
    ensures OthersAsk(s, map[t := b.data, u := b.data], map[], u)
  {
    var requests := map[t := b.data, u := b.data];
    assert t in Requesters(requests, b.data % HASH_SIZE) - {u};
    assert Asked(b.data, Requesters(requests, b.data % HASH_SIZE) - {u}, requests);
  }

  lemma BothCall(s: State, a: nat, t: Tid, u: Tid, rest: seq<(Tid, Choice)>)
    requires |s.table| == HASH_SIZE && t != u && PcOf(s, t) == Idle && PcOf(s, u) == Idle
    ensures Steps(s, [(t, BeginFree(a)), (u, BeginFree(a))] + rest)
         == Steps(Called(s, map[t := a, u := a], map[]), rest)
  {
    var schedule := [(t, BeginFree(a)), (u, BeginFree(a))] + rest;
    var one := Goto(s, t, FreeStart(a));
    var two := Goto(one, u, FreeStart(a));
    assert two.threads == Called(s, map[t := a, u := a], map[]).threads;
    assert Step(s, t, BeginFree(a)) == Some(one) && Step(one, u, BeginFree(a)) == Some(two);
    hide Step, Called;
    assert schedule[1..] == [(u, BeginFree(a))] + rest && schedule[1..][1..] == rest;
    assert Steps(one, schedule[1..]) == Steps(two, rest);
  }

  // ---------------------------------------------------------------- how a call to free ends

  /** `n` steps of the same thread. */
  function Alone(t: Tid, n: nat): seq<Tid> {
    seq(n, i => t)
  }

  lemma OneMoreStep(s: State, t: Tid, next: State, n: nat, end: State)
    requires |s.table| == |next.table| == HASH_SIZE && Advance(s, t) == Some(next)
    requires Continues(next, Alone(t, n)) == Some(end)
    ensures Continues(s, Alone(t, n + 1)) == Some(end)
  {
    hide Advance;
    assert Alone(t, n + 1)[1..] == Alone(t, n);
  }

  /** The call has done what the table has for its address: the block is out and counted out, or the attempt is
      reported and all is as it was. The mutex is free. */
  predicate Freed(s: State, t: Tid, a: nat, end: State)
    requires |s.table| == HASH_SIZE
  {
    && end.mutex == None && end.table == Untrack(s.table, a)
    && match Found(s.table, a) {
      case Some(b) => PcOf(end, t) == FreeDone(b) && end.total == (s.total - b.space) % ULONG
      case None => PcOf(end, t) == Reported(a) && end.total == s.total
    }
  }

  lemma MissEnds(s: State, t: Tid, a: nat) returns (end: State)
    requires |s.table| == HASH_SIZE && PcOf(s, t) == FreeMiss(a) && Found(s.table, a) == None
    ensures Continues(s, Alone(t, 1)) == Some(end) && Freed(s, t, a, end)
  {
    end := Goto(s, t, Reported(a)).(mutex := None);
    assert Advance(s, t) == Some(end);
    OneMoreStep(s, t, end, 0, end);
  }

  lemma HitEnds(s: State, t: Tid, a: nat, at: nat) returns (end: State)
    requires |s.table| == HASH_SIZE && PcOf(s, t) == FreeFound(a, at) && at < |Chain(s, a)|
    requires Chain(s, a)[at].data == a && forall j :: 0 <= j < at ==> Chain(s, a)[j].data != a
    ensures Continues(s, Alone(t, 3)) == Some(end) && Freed(s, t, a, end)
  {
    var c := Chain(s, a);
    PositionIs(c, a, at);
    var b := c[at];
    var s1 := Goto(s, t, FreeUnlinked(b)).(table := s.table[a % HASH_SIZE := c[..at] + c[at + 1..]]);
    var s2 := Goto(s1, t, FreeCounted(b)).(total := (s.total - b.space) % ULONG);
    end := Goto(s2, t, FreeDone(b)).(mutex := None);
    assert Advance(s, t) == Some(s1) && Advance(s1, t) == Some(s2) && Advance(s2, t) == Some(end);
    OneMoreStep(s2, t, end, 0, end);
    OneMoreStep(s1, t, s2, 1, end);
    OneMoreStep(s, t, s1, 2, end);
  }

  /** Steps that only move the thread on do not matter for how the call ends. */
  lemma FreedFrom(s: State, t: Tid, a: nat, next: State, end: State)
    requires |s.table| == HASH_SIZE && next.table == s.table && next.total == s.total && Freed(next, t, a, end)
    ensures Freed(s, t, a, end)
  {
  }

  lemma {:induction false} ScanEnds(s: State, t: Tid, a: nat, at: nat) returns (n: nat, end: State)
    requires |s.table| == HASH_SIZE && PcOf(s, t) == FreeScan(a, at) && at < |Chain(s, a)|
    requires forall j :: 0 <= j <= at ==> Chain(s, a)[j].data != a
    ensures Continues(s, Alone(t, n)) == Some(end) && Freed(s, t, a, end)
    decreases |Chain(s, a)| - at
  {
    var c := Chain(s, a);
    if at + 1 == |c| {
      var next := Goto(s, t, FreeMiss(a));
      assert Advance(s, t) == Some(next);
      PositionIs(c, a, |c|);
      end := MissEnds(next, t, a);
      n := 2;
      OneMoreStep(s, t, next, 1, end);
    } else if c[at + 1].data == a {
      var next := Goto(s, t, FreeFound(a, at + 1));
      assert Advance(s, t) == Some(next);
      end := HitEnds(next, t, a, at + 1);
      n := 4;
      OneMoreStep(s, t, next, 3, end);
    } else {
      var next := Goto(s, t, FreeScan(a, at + 1));
      assert Advance(s, t) == Some(next);
      var m;
      m, end := ScanEnds(next, t, a, at + 1);
      n := m + 1;
      OneMoreStep(s, t, next, m, end);
      FreedFrom(s, t, a, next, end);
    }
  }

  lemma LockedEnds(s: State, t: Tid, a: nat) returns (n: nat, end: State)
    requires |s.table| == HASH_SIZE && PcOf(s, t) == FreeLocked(a) && Chain(s, a) != []
    ensures Continues(s, Alone(t, n)) == Some(end) && Freed(s, t, a, end)
  {
    var next, m;
    if Chain(s, a)[0].data == a {
      next := Goto(s, t, FreeFound(a, 0));
      end := HitEnds(next, t, a, 0);
      m := 3;
    } else {
      next := Goto(s, t, FreeScan(a, 0));
      m, end := ScanEnds(next, t, a, 0);
    }
    assert Advance(s, t) == Some(next);
    n := m + 1;
    OneMoreStep(s, t, next, m, end);
    FreedFrom(s, t, a, next, end);
  }

  /** A call to free that nothing disturbs ends as the table has it: a tracked block is taken out and counted out, an
      unknown address is reported, whether its bucket is empty or not, and the mutex is free. */
  lemma LoneFree(s: State, t: Tid, a: nat) returns (n: nat, end: State)
    requires |s.table| == HASH_SIZE && PcOf(s, t) == FreeStart(a) && s.mutex == None
    ensures Continues(s, Alone(t, n)) == Some(end) && Freed(s, t, a, end)
  {
    if Chain(s, a) == [] {
      end := Goto(s, t, Reported(a));
      assert Advance(s, t) == Some(end);
      n := 1;
      OneMoreStep(s, t, end, 0, end);
    } else {
      var s1 := Goto(s, t, FreeTested(a));
      var s2 := Goto(s1, t, FreeLocked(a)).(mutex := Some(t));
      assert Advance(s, t) == Some(s1) && Advance(s1, t) == Some(s2);
      var m;
      m, end := LockedEnds(s2, t, a);
      n := m + 2;
      OneMoreStep(s1, t, s2, m, end);
      OneMoreStep(s, t, s1, m + 1, end);
      FreedFrom(s, t, a, s2, end);
    }
  }

  /** In every interleaving of calls to free and calls that allocate, the holder of the mutex is some of its own steps
      from the release, unless it has crashed or is about to at an empty bucket. If it looks for an address, the
      call then ends as the table has it. */
  lemma HolderReleases(start: State, requests: map<Tid, nat>, arrivals: map<Tid, Block>, s: State, t: Tid)
    returns (n: nat, end: State)
    requires FreeInv(start, requests, arrivals, s) && s.mutex == Some(t) && !PcOf(s, t).Crashed?
    requires PcOf(s, t).FreeLocked? ==> Chain(s, PcOf(s, t).address) != []
    ensures Continues(s, Alone(t, n)) == Some(end) && end.mutex == None
    ensures LooksFor(s, PcOf(s, t)) ==> Freed(s, t, PcOf(s, t).address, end)
  {
    HolderIsPlaced(start, requests, arrivals, s, t);
    hide FreeInv, Freed, Continues, Advance, PositionHolds, LooksFor;
    n, end := Releases(s, t);
  }

  lemma HolderIsPlaced(start: State, requests: map<Tid, nat>, arrivals: map<Tid, Block>, s: State, t: Tid)
    requires FreeInv(start, requests, arrivals, s) && s.mutex == Some(t) && !PcOf(s, t).Crashed?
    ensures |s.table| == HASH_SIZE && Holds(PcOf(s, t)) && PositionHolds(s, PcOf(s, t))
  {
    assert ThreadInv(start, requests, arrivals, s, t);
  }

  lemma Releases(s: State, t: Tid) returns (n: nat, end: State)
    requires |s.table| == HASH_SIZE && s.mutex == Some(t) && Holds(PcOf(s, t)) && PositionHolds(s, PcOf(s, t))
    requires PcOf(s, t).FreeLocked? ==> Chain(s, PcOf(s, t).address) != []
    ensures Continues(s, Alone(t, n)) == Some(end) && end.mutex == None
    ensures LooksFor(s, PcOf(s, t)) ==> Freed(s, t, PcOf(s, t).address, end)
  {
    match PcOf(s, t) {
      case FreeLocked(a) => n, end := LockedEnds(s, t, a);
      case FreeScan(a, at) => n, end := ScanEnds(s, t, a, at);
      case FreeFound(a, at) =>
        end := HitEnds(s, t, a, at);
        n := 3;
      case _ => n, end := Finishes(s, t);
    }
  }

  /** What is left of a call when no search is needed. */
  lemma Finishes(s: State, t: Tid) returns (n: nat, end: State)
    requires |s.table| == HASH_SIZE && s.mutex == Some(t) && Holds(PcOf(s, t))
    requires !PcOf(s, t).FreeLocked? && !PcOf(s, t).FreeScan? && !PcOf(s, t).FreeFound?
    ensures Continues(s, Alone(t, n)) == Some(end) && end.mutex == None
    ensures LooksFor(s, PcOf(s, t)) ==> Freed(s, t, PcOf(s, t).address, end)
    decreases if PcOf(s, t).TrackLocked? then 3 else if PcOf(s, t).TrackCounted? then 2
              else if PcOf(s, t).TrackReady? || PcOf(s, t).FreeUnlinked? then 1 else 0
  {
    var next := Advance(s, t).value;
    if next.mutex == None {
      end := next;
      n := 1;
      OneMoreStep(s, t, next, 0, end);
    } else {
      var m;
      m, end := Finishes(next, t);
      n := m + 1;
      OneMoreStep(s, t, next, m, end);
    }
  }

  /** The thread holds the mutex and has not unlinked anything yet. */
  predicate LooksFor(s: State, pc: Pc)
    requires |s.table| == HASH_SIZE
  {
    pc.FreeLocked? || pc.FreeScan? || pc.FreeFound? || (pc.FreeMiss? && Found(s.table, pc.address) == None)
  }
}
