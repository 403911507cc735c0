/** Threads that track and free blocks at the same time: the steps of smartalloc.c between two
    reads or writes of shared memory, in any interleaving. */
module AllocThreads {
  import opened AllocTable
  import opened Wrappers

  type Tid = nat

  /** What a thread has done so far of the call it is in. */
  datatype Pc =
    | Idle
    | TrackStart(block: Block)               // raw memory obtained, mutex not taken yet
    | TrackLocked(block: Block)
    | TrackCounted(block: Block)             // the total includes the block
    | TrackReady(block: Block, next: seq<Block>)  // the node points to what was the head
    | TrackLinked(block: Block)              // the node is the head, mutex still held
    | FreeStart(address: nat)
    | FreeTested(address: nat)               // saw a bucket that is not empty, without the mutex
    | FreeLocked(address: nat)
    | FreeScan(address: nat, at: nat)        // `temp` is node number `at` of the chain
    | FreeFound(address: nat, at: nat)       // `to_free` is node number `at`
    | FreeUnlinked(block: Block)
    | FreeCounted(block: Block)              // the total no longer includes the block
    | FreeDone(block: Block)                 // mutex released, raw memory not given back yet
    | FreeMiss(address: nat)                 // the scan ended without a match, mutex still held
    | Reported(address: nat)                 // the attempt has been reported as an error
    | Crashed                                // an empty bucket was dereferenced

  datatype State = State(threads: map<Tid, Pc>, mutex: Option<Tid>, table: Table, total: nat)

  /** A thread begins a call, with the block that `malloc` gave it, or goes on with the one it is in. */
  datatype Choice = BeginTrack(block: Block) | BeginFree(address: nat) | Continue

  function PcOf(s: State, t: Tid): Pc {
    if t in s.threads then s.threads[t] else Idle
  }

  function Goto(s: State, t: Tid, pc: Pc): State {
    s.(threads := s.threads[t := pc])
  }

  function Chain(s: State, address: nat): seq<Block>
    requires |s.table| == HASH_SIZE
  {
    s.table[address % HASH_SIZE]
  }

  /** One step of thread `t`, or None while it is blocked or has nothing to do. */
  function Step(s: State, t: Tid, c: Choice): (r: Option<State>)
    requires |s.table| == HASH_SIZE
    ensures r.Some? ==> |r.value.table| == HASH_SIZE
  {
    match c
    case BeginTrack(b) => if PcOf(s, t).Idle? then Some(Goto(s, t, TrackStart(b))) else None
    case BeginFree(a) => if PcOf(s, t).Idle? then Some(Goto(s, t, FreeStart(a))) else None
    case Continue => Advance(s, t)
  }

  function Lock(s: State, t: Tid, pc: Pc): Option<State> {
    if s.mutex.None? then Some(Goto(s, t, pc).(mutex := Some(t))) else None
  }

  function Unlock(s: State, t: Tid, pc: Pc): Option<State> {
    Some(Goto(s, t, pc).(mutex := None))
  }

  function Advance(s: State, t: Tid): (r: Option<State>)
    requires |s.table| == HASH_SIZE
    ensures r.Some? ==> |r.value.table| == HASH_SIZE
  {
    match PcOf(s, t)
    case Idle => None
    case TrackStart(b) => Lock(s, t, TrackLocked(b))
    case TrackLocked(b) => Some(Goto(s, t, TrackCounted(b)).(total := (s.total + b.space) % ULONG))
    case TrackCounted(b) => Some(Goto(s, t, TrackReady(b, Chain(s, b.data))))
    case TrackReady(b, next) =>
      Some(Goto(s, t, TrackLinked(b)).(table := s.table[b.data % HASH_SIZE := [b] + next]))
    case TrackLinked(_) => Unlock(s, t, Idle)
    case FreeStart(a) => Some(Goto(s, t, if Chain(s, a) == [] then Reported(a) else FreeTested(a)))
    case FreeTested(a) => Lock(s, t, FreeLocked(a))
    case FreeLocked(a) =>
      var c := Chain(s, a);
      Some(Goto(s, t, if c == [] then Crashed else if c[0].data == a then FreeFound(a, 0) else FreeScan(a, 0)))
    case FreeScan(a, at) =>
      var c := Chain(s, a);
      Some(Goto(s, t, if at + 1 >= |c| then FreeMiss(a)
                      else if c[at + 1].data == a then FreeFound(a, at + 1)
                      else FreeScan(a, at + 1)))
    case FreeFound(a, at) =>
      var c := Chain(s, a);
      if at < |c| then
        Some(Goto(s, t, FreeUnlinked(c[at])).(table := s.table[a % HASH_SIZE := c[..at] + c[at + 1..]]))
      else Some(Goto(s, t, Crashed))
    case FreeUnlinked(b) => Some(Goto(s, t, FreeCounted(b)).(total := (s.total - b.space) % ULONG))
    case FreeCounted(b) => Unlock(s, t, FreeDone(b))
    case FreeDone(_) => Some(Goto(s, t, Idle))
    case FreeMiss(a) => Unlock(s, t, Reported(a))
    case Reported(_) => Some(Goto(s, t, Idle))
    case Crashed => None
  }

  const START := State(map[], None, NoBlocks(), 0)

  // ---------------------------------------------------------------- the rules of the game

  /** A block that is in no chain but occupies raw memory. */
  function Carried(pc: Pc): Option<Block> {
    match pc
    case TrackStart(b) => Some(b)
    case TrackLocked(b) => Some(b)
    case TrackCounted(b) => Some(b)
    case TrackReady(b, _) => Some(b)
    case FreeUnlinked(b) => Some(b)
    case FreeCounted(b) => Some(b)
    case FreeDone(b) => Some(b)
    case _ => None
  }

  /** The address a thread is about to take out of its chain. */
  function Claimed(pc: Pc): Option<nat> {
    match pc
    case FreeStart(a) => Some(a)
    case FreeTested(a) => Some(a)
    case FreeLocked(a) => Some(a)
    case FreeScan(a, _) => Some(a)
    case FreeFound(a, _) => Some(a)
    case _ => None
  }

  /** `malloc` returns unused memory, and only one thread frees a block, which is live. */
  ghost predicate Allowed(s: State, t: Tid, c: Choice)
    requires |s.table| == HASH_SIZE
  {
    match c
    case BeginTrack(b) =>
      && (forall x :: Tracks(s.table, x) ==> x.data != b.data)
      && (forall u: Tid, x :: Carried(PcOf(s, u)) == Some(x) ==> x.data != b.data)
    case BeginFree(a) =>
      && (exists x :: Tracks(s.table, x) && x.data == a)
      && (forall u: Tid :: Claimed(PcOf(s, u)) != Some(a))
    case Continue => true
  }

  /** The state after a schedule that keeps the rules, or None if it does not. */
  ghost function Run(schedule: seq<(Tid, Choice)>): (r: Option<State>)
    ensures r.Some? ==> |r.value.table| == HASH_SIZE
  {
    if schedule == [] then Some(START)
    else
      var last := schedule[|schedule| - 1];
      var before := Run(schedule[..|schedule| - 1]);
      if before.Some? && Allowed(before.value, last.0, last.1) then Step(before.value, last.0, last.1) else None
  }

  // ---------------------------------------------------------------- the invariant

  predicate Holds(pc: Pc) {
    || pc.TrackLocked? || pc.TrackCounted? || pc.TrackReady? || pc.TrackLinked?
    || pc.FreeLocked? || pc.FreeScan? || pc.FreeFound? || pc.FreeUnlinked? || pc.FreeCounted? || pc.FreeMiss?
  }

  /** What the total is ahead of the chains while the mutex is held. */
  function Ahead(pc: Pc): nat {
    match pc
    case TrackCounted(b) => b.space
    case TrackReady(b, _) => b.space
    case FreeUnlinked(b) => b.space
    case _ => 0
  }

  ghost predicate PcInv(s: State, t: Tid)
    requires |s.table| == HASH_SIZE
  {
    var pc := PcOf(s, t);
    && !pc.Crashed? && !pc.Reported? && !pc.FreeMiss?
    && (Holds(pc) <==> s.mutex == Some(t))
    && (pc.TrackReady? ==> pc.next == Chain(s, pc.block.data))
    && (pc.FreeScan? ==> pc.at < |Chain(s, pc.address)|
                         && forall j :: 0 <= j <= pc.at ==> Chain(s, pc.address)[j].data != pc.address)
    && (pc.FreeFound? ==> pc.at < |Chain(s, pc.address)| && Chain(s, pc.address)[pc.at].data == pc.address
                          && forall j :: 0 <= j < pc.at ==> Chain(s, pc.address)[j].data != pc.address)
    && (Carried(pc).Some? ==> forall x :: Tracks(s.table, x) ==> x.data != Carried(pc).value.data)
    && (Claimed(pc).Some? ==> exists x :: Tracks(s.table, x) && x.data == Claimed(pc).value)
  }

  ghost predicate Inv(s: State) {
    && |s.table| == HASH_SIZE && DistinctAddresses(s.table)
    && (forall t: Tid :: PcInv(s, t))
    && (forall t: Tid, u: Tid :: t != u && Carried(PcOf(s, t)).Some? && Carried(PcOf(s, u)).Some?
                       ==> Carried(PcOf(s, t)).value.data != Carried(PcOf(s, u)).value.data)
    && (forall t: Tid, u: Tid :: t != u && Claimed(PcOf(s, t)).Some? ==> Claimed(PcOf(s, t)) != Claimed(PcOf(s, u)))
    && s.total == (Space(s.table) + (if s.mutex.Some? then Ahead(PcOf(s, s.mutex.value)) else 0)) % ULONG
  }

  // ---------------------------------------------------------------- every step keeps it

  /** A step that leaves the chains alone. */
  lemma LocalStep(s: State, s': State, t: Tid, pc: Pc)
    requires Inv(s) && s'.threads == s.threads[t := pc] && s'.table == s.table && PcInv(s', t)
    requires s'.mutex == s.mutex || (s.mutex == None && s'.mutex == Some(t)) || (s.mutex == Some(t) && s'.mutex == None)
    requires forall u: Tid :: u != t && Carried(pc).Some? && Carried(PcOf(s, u)).Some?
                         ==> Carried(pc).value.data != Carried(PcOf(s, u)).value.data
    requires forall u: Tid :: u != t && Claimed(pc).Some? ==> Claimed(pc) != Claimed(PcOf(s, u))
    requires s'.total == (Space(s'.table) + (if s'.mutex.Some? then Ahead(PcOf(s', s'.mutex.value)) else 0)) % ULONG
    ensures Inv(s')
  {
    assert forall u: Tid :: PcOf(s', u) == if u == t then pc else PcOf(s, u);
    forall u: Tid
      ensures PcInv(s', u)
    {
      if u != t {
        assert PcInv(s, u);
      }
    }
  }

  /** The step that makes a prepared node the head of its chain tracks the block. */
  lemma LinkStep(s: State, s': State, t: Tid)
    requires Inv(s) && PcOf(s, t).TrackReady? && Advance(s, t) == Some(s')
    ensures s'.table == Track(s.table, PcOf(s, t).block) && Inv(s')
  {
    assert PcInv(s, t);
    var b := PcOf(s, t).block;
    TracksAfterTrack(s.table, b);
    SpaceAfterTrack(s.table, b);
    forall u: Tid
      ensures PcInv(s', u)
    {
      assert PcInv(s, u);
      if u != t {
        assert PcOf(s', u) == PcOf(s, u) && !Holds(PcOf(s, u));
      }
    }
    assert forall u: Tid :: u != t ==> PcOf(s', u) == PcOf(s, u);
  }

  /** The step that unlinks a found node hands out the block that the table knows for the address. */
  lemma UnlinkStep(s: State, s': State, t: Tid)
    requires Inv(s) && PcOf(s, t).FreeFound? && Advance(s, t) == Some(s')
    ensures s'.table == Untrack(s.table, PcOf(s, t).address) && Inv(s')
    ensures PcOf(s', t).FreeUnlinked? && Found(s.table, PcOf(s, t).address) == Some(PcOf(s', t).block)
  {
    hide Space, Tracks;
    assert PcInv(s, t);
    var a, at := PcOf(s, t).address, PcOf(s, t).at;
    PositionIs(Chain(s, a), a, at);
    TracksAfterUntrack(s.table, a);
    FoundIsTracked(s.table, a);
    SpaceAfterUntrack(s.table, a);
    forall u: Tid
      ensures PcInv(s', u)
    {
      assert PcInv(s, u);
      if u != t {
        assert PcOf(s', u) == PcOf(s, u) && !Holds(PcOf(s, u));
        if Claimed(PcOf(s, u)).Some? {
          var x :| Tracks(s.table, x) && x.data == Claimed(PcOf(s, u)).value;
          assert Claimed(PcOf(s, t)) == Some(a);
          assert Tracks(s'.table, x);
        }
      }
    }
    assert forall u: Tid :: u != t ==> PcOf(s', u) == PcOf(s, u);
    forall u: Tid | u != t && Carried(PcOf(s, u)).Some?
      ensures Carried(PcOf(s, u)).value.data != a
    {
      assert PcInv(s, u);
    }
  }

  /** Every step that keeps the rules keeps the invariant. */
  lemma StepKeepsInv(s: State, t: Tid, c: Choice, s': State)
    requires Inv(s) && Allowed(s, t, c) && Step(s, t, c) == Some(s')
    ensures Inv(s')
  {
    assert PcInv(s, t);
    var pc := PcOf(s, t);
    match c {
      case BeginTrack(b) => LocalStep(s, s', t, TrackStart(b));
      case BeginFree(a) => LocalStep(s, s', t, FreeStart(a));
      case Continue =>
        if pc.TrackReady? {
          LinkStep(s, s', t);
        } else if pc.FreeFound? {
          UnlinkStep(s, s', t);
        } else {
          QuietStep(s, t, s');
        }
    }
  }

  lemma QuietStep(s: State, t: Tid, s': State)
    requires Inv(s) && Advance(s, t) == Some(s') && !PcOf(s, t).TrackReady? && !PcOf(s, t).FreeFound?
    ensures s'.table == s.table && Inv(s')
  {
    hide PcInv, Step;
    QuietPc(s, t, s');
    QuietClaims(s, t, s');
    QuietTotal(s, t, s');
    LocalStep(s, s', t, PcOf(s', t));
  }

  lemma QuietPc(s: State, t: Tid, s': State)
    requires Inv(s) && Advance(s, t) == Some(s') && !PcOf(s, t).TrackReady? && !PcOf(s, t).FreeFound?
    ensures PcInv(s', t)
  {
    hide Tracks;
    assert PcInv(s, t);
    QuietClaims(s, t, s');
    if Claimed(PcOf(s, t)).Some? {
      ClaimedIsInChain(s, t);
    }
  }

  lemma QuietClaims(s: State, t: Tid, s': State)
    requires Inv(s) && Advance(s, t) == Some(s') && !PcOf(s, t).TrackReady? && !PcOf(s, t).FreeFound?
    ensures s'.table == s.table
    ensures Carried(PcOf(s', t)).Some? ==> Carried(PcOf(s', t)) == Carried(PcOf(s, t))
    ensures Claimed(PcOf(s', t)).Some? ==> Claimed(PcOf(s', t)) == Claimed(PcOf(s, t))
    ensures s'.mutex == s.mutex || (s.mutex == None && s'.mutex == Some(t)) || (s.mutex == Some(t) && s'.mutex == None)
  {
    assert PcInv(s, t);
  }

  lemma QuietTotal(s: State, t: Tid, s': State)
    requires Inv(s) && Advance(s, t) == Some(s') && !PcOf(s, t).TrackReady? && !PcOf(s, t).FreeFound?
    ensures s'.total == (Space(s'.table) + (if s'.mutex.Some? then Ahead(PcOf(s', s'.mutex.value)) else 0)) % ULONG
  {
    assert PcInv(s, t);
    var pc := PcOf(s, t);
    if pc.TrackLocked? {
      AddModulo(Space(s.table), pc.block.space);
    }
    if pc.FreeUnlinked? {
      SubtractModulo(Space(s.table) + pc.block.space, pc.block.space);
    }
  }

  lemma ClaimedIsInChain(s: State, t: Tid)
    requires Inv(s) && Claimed(PcOf(s, t)).Some?
    ensures exists i :: 0 <= i < |Chain(s, Claimed(PcOf(s, t)).value)|
                        && Chain(s, Claimed(PcOf(s, t)).value)[i].data == Claimed(PcOf(s, t)).value
  {
    assert PcInv(s, t);
    var x :| Tracks(s.table, x) && x.data == Claimed(PcOf(s, t)).value;
    assert x in Chain(s, x.data);
  }

  lemma StartInv()
    ensures Inv(START)
  {
    hide NoBlocks, Space;
    EmptySpace(NoBlocks());
    forall t: Tid
      ensures PcInv(START, t)
    {
      assert PcOf(START, t) == Idle;
    }
  }

  lemma {:induction false} RunKeepsInv(schedule: seq<(Tid, Choice)>)
    ensures Run(schedule).Some? ==> Inv(Run(schedule).value)
  {
    if schedule == [] {
      StartInv();
    } else {
      var last := schedule[|schedule| - 1];
      RunKeepsInv(schedule[..|schedule| - 1]);
      var before := Run(schedule[..|schedule| - 1]);
      if Run(schedule).Some? {
        StepKeepsInv(before.value, last.0, last.1, Run(schedule).value);
      }
    }
  }

  /** Whatever the number of threads and the interleaving: no thread dereferences an empty bucket,
      every removal finds its node, tracked addresses stay distinct, and while the mutex is free the
      total is the sum of the tracked sizes. */
  lemma Safety(schedule: seq<(Tid, Choice)>)
    requires Run(schedule).Some?
    ensures var s := Run(schedule).value;
            && (forall t: Tid :: !PcOf(s, t).Crashed? && !PcOf(s, t).FreeMiss? && !PcOf(s, t).Reported?)
            && (forall t: Tid, u: Tid :: Holds(PcOf(s, t)) && Holds(PcOf(s, u)) ==> t == u)
            && DistinctAddresses(s.table)
            && (s.mutex.None? ==> s.total == Space(s.table) % ULONG)
  {
    RunKeepsInv(schedule);
    var s := Run(schedule).value;
    forall t: Tid
      ensures !PcOf(s, t).Crashed? && !PcOf(s, t).FreeMiss? && !PcOf(s, t).Reported?
      ensures Holds(PcOf(s, t)) ==> s.mutex == Some(t)
    {
      assert PcInv(s, t);
    }
  }

  // ---------------------------------------------------------------- the order of the critical sections

  /** The table operation that a step performs, if it performs one. */
  function Effect(s: State, t: Tid, c: Choice): seq<Op> {
    var pc := PcOf(s, t);
    if !c.Continue? then []
    else if pc.TrackReady? then [TrackOp(pc.block)]
    else if pc.FreeFound? then [RemoveOp(pc.address)]
    else []
  }

  /** The table operations of a schedule, in the order in which they take effect. */
  ghost function Effects(schedule: seq<(Tid, Choice)>): seq<Op>
    requires Run(schedule).Some?
  {
    if schedule == [] then []
    else
      var before, last := schedule[..|schedule| - 1], schedule[|schedule| - 1];
      Effects(before) + Effect(Run(before).value, last.0, last.1)
  }

  /** Every concurrent run leaves the chains as the sequential run of its effects does. */
  lemma {:induction false} RunIsSequential(schedule: seq<(Tid, Choice)>)
    requires Run(schedule).Some?
    ensures Run(schedule).value.table == AllocTable.Run(Effects(schedule))
  {
    hide Inv, Step, Effect, Apply, Allowed;
    if schedule != [] {
      var before, last := schedule[..|schedule| - 1], schedule[|schedule| - 1];
      RunIsSequential(before);
      RunKeepsInv(before);
      var e := Effect(Run(before).value, last.0, last.1);
      TableAfterStep(Run(before).value, last.0, last.1, Run(schedule).value);
      AtMostOneEffect(Run(before).value, last.0, last.1);
      if e == [] {
        assert Effects(before) + e == Effects(before);
      } else {
        assert (Effects(before) + e)[..|Effects(before)|] == Effects(before);
      }
    }
  }

  lemma AtMostOneEffect(s: State, t: Tid, c: Choice)
    ensures |Effect(s, t, c)| <= 1
  {
  }

  /** A removal that takes effect hands out what the sequential table answers. */
  lemma RemovalAnswersSequentially(schedule: seq<(Tid, Choice)>, t: Tid)
    requires Run(schedule).Some? && PcOf(Run(schedule).value, t).FreeFound?
    ensures var s := Run(schedule).value;
            var r := Step(s, t, Continue);
            && r.Some? && PcOf(r.value, t).FreeUnlinked?
            && Some(PcOf(r.value, t).block) == Answer(AllocTable.Run(Effects(schedule)), RemoveOp(PcOf(s, t).address))
  {
    hide Run, Effects, AllocTable.Run, PcInv, Found;
    var s := Run(schedule).value;
    RunKeepsInv(schedule);
    RunIsSequential(schedule);
    FoundStepEnabled(s, t);
    UnlinkStep(s, Step(s, t, Continue).value, t);
  }

  lemma FoundStepEnabled(s: State, t: Tid)
    requires |s.table| == HASH_SIZE && PcOf(s, t).FreeFound?
    ensures Step(s, t, Continue).Some? && Step(s, t, Continue) == Advance(s, t)
  {
  }

  lemma TableAfterStep(s: State, t: Tid, c: Choice, s': State)
    requires Inv(s) && Step(s, t, c) == Some(s')
    ensures s'.table == if Effect(s, t, c) == [] then s.table else Apply(s.table, Effect(s, t, c)[0])
  {
    if c.Continue? {
      if PcOf(s, t).TrackReady? {
        LinkStep(s, s', t);
      } else if PcOf(s, t).FreeFound? {
        UnlinkStep(s, s', t);
      } else {
        QuietStep(s, t, s');
      }
    }
  }

  // ---------------------------------------------------------------- progress

  /** Steps the holder of the mutex takes at most before it releases it. */
  function StepsLeft(s: State, pc: Pc): nat
    requires |s.table| == HASH_SIZE
  {
    match pc
    case TrackLocked(_) => 4
    case TrackCounted(_) => 3
    case TrackReady(_, _) => 2
    case TrackLinked(_) => 1
    case FreeLocked(a) => |Chain(s, a)| + 4
    case FreeScan(a, at) => if at < |Chain(s, a)| then |Chain(s, a)| - at + 3 else 0
    case FreeFound(_, _) => 3
    case FreeUnlinked(_) => 2
    case FreeCounted(_) => 1
    case _ => 0
  }

  /** The holder of the mutex is never blocked, and each of its steps brings it closer to the release. */
  lemma HolderProgresses(s: State, t: Tid)
    requires Inv(s) && s.mutex == Some(t)
    ensures var r := Step(s, t, Continue);
            r.Some? && (r.value.mutex == None || (r.value.mutex == Some(t)
              && StepsLeft(r.value, PcOf(r.value, t)) < StepsLeft(s, PcOf(s, t))))
  {
    assert PcInv(s, t);
    if PcOf(s, t).FreeScan? {
      ClaimedIsInChain(s, t);
    }
  }
}
