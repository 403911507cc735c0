/** The table of live blocks of smartalloc.c as a value: 113 chains of block records. */
module AllocTable {
  import opened Wrappers

  const HASH_SIZE: nat := 113
  /** Number of values of an `unsigned long`. */
  const ULONG: nat := 0x1_0000_0000_0000_0000

  /** A tracked block: address and size of the user's data, and the margin on either side. */
  datatype Block = Block(data: nat, space: nat, needsFree: bool, margin: nat)

  type Table = seq<seq<Block>>

  /** Every record is in the chain of its address. */
  ghost predicate Hashed(t: Table) {
    |t| == HASH_SIZE && forall h, i :: 0 <= h < |t| && 0 <= i < |t[h]| ==> t[h][i].data % HASH_SIZE == h
  }

  function NoBlocks(): (t: Table)
    ensures |t| == HASH_SIZE
    ensures forall h :: 0 <= h < |t| ==> t[h] == []
  {
    seq(HASH_SIZE, h => [])
  }

  function SpaceOf(found: Option<Block>): nat {
    if found.Some? then found.value.space else 0
  }

  function Track(t: Table, b: Block): Table
    requires |t| == HASH_SIZE
  {
    t[b.data % HASH_SIZE := [b] + t[b.data % HASH_SIZE]]
  }

  /** Index of the first record of an address in a chain, or the chain's length. */
  function Position(chain: seq<Block>, address: nat): (i: nat)
    ensures i <= |chain|
    ensures forall j :: 0 <= j < i ==> chain[j].data != address
    ensures i < |chain| ==> chain[i].data == address
  {
    if chain == [] || chain[0].data == address then 0 else 1 + Position(chain[1..], address)
  }

  lemma {:induction false} PositionIs(chain: seq<Block>, address: nat, i: nat)
    requires i <= |chain| && (forall j :: 0 <= j < i ==> chain[j].data != address)
    requires i < |chain| ==> chain[i].data == address
    ensures Position(chain, address) == i
  {
    if i > 0 {
      PositionIs(chain[1..], address, i - 1);
    }
  }

  function Found(t: Table, address: nat): Option<Block>
    requires |t| == HASH_SIZE
  {
    var chain := t[address % HASH_SIZE];
    var i := Position(chain, address);
    if i < |chain| then Some(chain[i]) else None
  }

  function Untrack(t: Table, address: nat): Table
    requires |t| == HASH_SIZE
  {
    var chain := t[address % HASH_SIZE];
    var i := Position(chain, address);
    if i < |chain| then t[address % HASH_SIZE := chain[..i] + chain[i + 1..]] else t
  }

  /** The records of an address in a chain, the latest first. */
  function Records(chain: seq<Block>, address: nat): seq<Block> {
    if chain == [] then []
    else (if chain[0].data == address then [chain[0]] else []) + Records(chain[1..], address)
  }

  function Live(t: Table, address: nat): seq<Block>
    requires |t| == HASH_SIZE
  {
    Records(t[address % HASH_SIZE], address)
  }

  function ChainSpace(chain: seq<Block>): nat {
    if chain == [] then 0 else chain[0].space + ChainSpace(chain[1..])
  }

  function Space(t: Table): nat {
    if t == [] then 0 else ChainSpace(t[0]) + Space(t[1..])
  }

  // ---------------------------------------------------------------- one operation

  lemma TrackKeepsHashed(t: Table, b: Block)
    requires Hashed(t)
    ensures Hashed(Track(t, b))
  {
  }

  lemma UntrackKeepsHashed(t: Table, address: nat)
    requires Hashed(t)
    ensures Hashed(Untrack(t, address))
  {
  }

  lemma {:induction false} RecordsWithout(chain: seq<Block>, i: nat, address: nat)
    requires i < |chain| && forall j :: 0 <= j < i ==> chain[j].data != chain[i].data
    ensures var rest := chain[..i] + chain[i + 1..];
            if address == chain[i].data then Records(chain, address) == [chain[i]] + Records(rest, address)
            else Records(chain, address) == Records(rest, address)
  {
    var rest := chain[..i] + chain[i + 1..];
    if i == 0 {
      assert rest == chain[1..];
    } else {
      RecordsWithout(chain[1..], i - 1, address);
      assert rest[1..] == chain[1..][..i - 1] + chain[1..][i..];
    }
  }

  lemma {:induction false} NoRecords(chain: seq<Block>, address: nat)
    requires Position(chain, address) == |chain|
    ensures Records(chain, address) == []
  {
    if chain != [] {
      NoRecords(chain[1..], address);
    }
  }

  /** Tracking puts a record on top of those of its address; no other address is affected. */
  lemma LiveAfterTrack(t: Table, b: Block, x: nat)
    requires |t| == HASH_SIZE
    ensures Live(Track(t, b), x) == if x == b.data then [b] + Live(t, x) else Live(t, x)
  {
    assert ([b] + t[b.data % HASH_SIZE])[1..] == t[b.data % HASH_SIZE];
  }

  /** Removal takes the top record off; no other address is affected, and a miss changes nothing. */
  lemma LiveAfterUntrack(t: Table, address: nat, x: nat)
    requires |t| == HASH_SIZE
    ensures Found(t, address) == if Live(t, address) == [] then None else Some(Live(t, address)[0])
    ensures Live(Untrack(t, address), x)
         == if x == address && Live(t, x) != [] then Live(t, x)[1..] else Live(t, x)
    ensures Found(t, address).None? ==> Untrack(t, address) == t
  {
    var chain := t[address % HASH_SIZE];
    var i := Position(chain, address);
    if i < |chain| {
      RecordsWithout(chain, i, x);
      RecordsWithout(chain, i, address);
    } else {
      NoRecords(chain, address);
    }
  }

  lemma {:induction false} ChainSpaceWithout(chain: seq<Block>, i: nat)
    requires i < |chain|
    ensures ChainSpace(chain[..i] + chain[i + 1..]) == ChainSpace(chain) - chain[i].space
  {
    var rest := chain[..i] + chain[i + 1..];
    if i == 0 {
      assert rest == chain[1..];
    } else {
      assert rest[1..] == chain[1..][..i - 1] + chain[1..][i..];
      ChainSpaceWithout(chain[1..], i - 1);
    }
  }

  lemma {:induction false} SpaceAfterUpdate(t: Table, h: nat, chain: seq<Block>)
    requires h < |t|
    ensures Space(t[h := chain]) == Space(t) - ChainSpace(t[h]) + ChainSpace(chain)
  {
    if h == 0 {
      assert t[h := chain][1..] == t[1..];
    } else {
      assert t[h := chain][1..] == t[1..][h - 1 := chain];
      SpaceAfterUpdate(t[1..], h - 1, chain);
    }
  }

  lemma SpaceAfterTrack(t: Table, b: Block)
    requires |t| == HASH_SIZE
    ensures Space(Track(t, b)) == Space(t) + b.space
  {
    var h := b.data % HASH_SIZE;
    assert ([b] + t[h])[1..] == t[h];
    SpaceAfterUpdate(t, h, [b] + t[h]);
  }

  lemma SpaceAfterUntrack(t: Table, address: nat)
    requires |t| == HASH_SIZE
    ensures Space(Untrack(t, address)) == Space(t) - SpaceOf(Found(t, address))
  {
    var chain := t[address % HASH_SIZE];
    var i := Position(chain, address);
    if i < |chain| {
      SpaceAfterUpdate(t, address % HASH_SIZE, chain[..i] + chain[i + 1..]);
      ChainSpaceWithout(chain, i);
    }
  }

  lemma AddModulo(x: nat, d: nat)
    ensures (x % ULONG + d) % ULONG == (x + d) % ULONG
  {
  }

  /** Unsigned subtraction takes a tracked size off the total again. */
  lemma SubtractModulo(x: nat, d: nat)
    requires d <= x
    ensures (x % ULONG - d) % ULONG == (x - d) % ULONG
  {
  }

  // ---------------------------------------------------------------- distinct addresses

  predicate Tracks(t: Table, b: Block)
    requires |t| == HASH_SIZE
  {
    b in t[b.data % HASH_SIZE]
  }

  /** No address is tracked twice. */
  ghost predicate DistinctAddresses(t: Table) {
    Hashed(t) && forall h, i, j :: 0 <= h < |t| && 0 <= i < j < |t[h]| ==> t[h][i].data != t[h][j].data
  }

  lemma TracksAfterTrack(t: Table, b: Block)
    requires DistinctAddresses(t) && forall x :: Tracks(t, x) ==> x.data != b.data
    ensures DistinctAddresses(Track(t, b))
    ensures forall x :: Tracks(Track(t, b), x) <==> x == b || Tracks(t, x)
  {
    var h := b.data % HASH_SIZE;
    forall i | 0 <= i < |t[h]|
      ensures t[h][i].data != b.data
    {
      assert Tracks(t, t[h][i]);
    }
  }

  /** With distinct addresses the table is a map from addresses to blocks. */
  lemma FoundIsTracked(t: Table, address: nat)
    requires DistinctAddresses(t)
    ensures forall b :: Found(t, address) == Some(b) <==> Tracks(t, b) && b.data == address
  {
    var chain := t[address % HASH_SIZE];
    var i := Position(chain, address);
    forall b
      ensures Found(t, address) == Some(b) <==> Tracks(t, b) && b.data == address
    {
      if Tracks(t, b) && b.data == address {
        var j :| 0 <= j < |chain| && chain[j] == b;
        assert i == j;
      }
    }
  }

  lemma InWithout(chain: seq<Block>, i: nat, x: Block)
    requires i < |chain| && forall j, k :: 0 <= j < k < |chain| ==> chain[j].data != chain[k].data
    ensures x in chain[..i] + chain[i + 1..] <==> x in chain && x.data != chain[i].data
  {
    var rest := chain[..i] + chain[i + 1..];
    if x in chain && x.data != chain[i].data {
      var j :| 0 <= j < |chain| && chain[j] == x;
      assert rest[if j < i then j else j - 1] == x;
    }
    if x in rest {
      var j :| 0 <= j < |rest| && rest[j] == x;
      assert chain[if j < i then j else j + 1] == x;
    }
  }

  lemma TracksAfterUntrack(t: Table, address: nat)
    requires DistinctAddresses(t)
    ensures DistinctAddresses(Untrack(t, address))
    ensures forall x :: Tracks(Untrack(t, address), x) <==> Tracks(t, x) && x.data != address
  {
    var chain := t[address % HASH_SIZE];
    var i := Position(chain, address);
    forall x
      ensures Tracks(Untrack(t, address), x) <==> Tracks(t, x) && x.data != address
    {
      if i < |chain| {
        InWithout(chain, i, x);
      }
    }
    UntrackKeepsHashed(t, address);
  }

  // ---------------------------------------------------------------- runs

  datatype Op = TrackOp(block: Block) | RemoveOp(address: nat)

  function Apply(t: Table, op: Op): Table
    requires |t| == HASH_SIZE
  {
    match op
    case TrackOp(b) => Track(t, b)
    case RemoveOp(a) => Untrack(t, a)
  }

  /** What the caller of an operation gets to see. */
  function Answer(t: Table, op: Op): Option<Block>
    requires |t| == HASH_SIZE
  {
    match op
    case TrackOp(_) => None
    case RemoveOp(a) => Found(t, a)
  }

  function Run(ops: seq<Op>): (t: Table)
    ensures |t| == HASH_SIZE
  {
    if ops == [] then NoBlocks() else Apply(Run(ops[..|ops| - 1]), ops[|ops| - 1])
  }

  /** The reference: for every address, the stack of its tracked and not yet removed blocks. */
  type Ledger = map<nat, seq<Block>>

  function Entries(l: Ledger, address: nat): seq<Block> {
    if address in l then l[address] else []
  }

  function ApplyLedger(l: Ledger, op: Op): Ledger {
    match op
    case TrackOp(b) => l[b.data := [b] + Entries(l, b.data)]
    case RemoveOp(a) => if Entries(l, a) == [] then l else l[a := Entries(l, a)[1..]]
  }

  function AnswerLedger(l: Ledger, op: Op): Option<Block> {
    match op
    case TrackOp(_) => None
    case RemoveOp(a) => if Entries(l, a) == [] then None else Some(Entries(l, a)[0])
  }

  function RunLedger(ops: seq<Op>): Ledger {
    if ops == [] then map[] else ApplyLedger(RunLedger(ops[..|ops| - 1]), ops[|ops| - 1])
  }

  ghost predicate Refines(t: Table, l: Ledger) {
    Hashed(t) && forall a: nat :: Live(t, a) == Entries(l, a)
  }

  lemma RefinedStep(t: Table, l: Ledger, op: Op)
    requires Refines(t, l)
    ensures Refines(Apply(t, op), ApplyLedger(l, op)) && Answer(t, op) == AnswerLedger(l, op)
  {
    hide Live, Track, Untrack, Found;
    match op {
      case TrackOp(b) =>
        TrackKeepsHashed(t, b);
        forall a: nat
          ensures Live(Track(t, b), a) == Entries(ApplyLedger(l, op), a)
        {
          LiveAfterTrack(t, b, a);
        }
      case RemoveOp(x) =>
        UntrackKeepsHashed(t, x);
        LiveAfterUntrack(t, x, x);
        forall a: nat
          ensures Live(Untrack(t, x), a) == Entries(ApplyLedger(l, op), a)
        {
          LiveAfterUntrack(t, x, a);
        }
    }
  }

  /** After any sequence of operations the chains hold exactly the live blocks, each in the chain
      of its hash, and the next operation is answered as the reference answers it. */
  lemma {:induction false} RunRefinesLedger(ops: seq<Op>, next: Op)
    ensures Refines(Run(ops), RunLedger(ops)) && Answer(Run(ops), next) == AnswerLedger(RunLedger(ops), next)
  {
    if ops != [] {
      var n := |ops| - 1;
      RunRefinesLedger(ops[..n], ops[n]);
      RefinedStep(Run(ops[..n]), RunLedger(ops[..n]), ops[n]);
    }
    RefinedStep(Run(ops), RunLedger(ops), next);
  }

  /** The bytes tracked less the bytes handed back, as the answers of a run tell it. */
  function Outstanding(ops: seq<Op>): int {
    if ops == [] then 0
    else
      var before, last := ops[..|ops| - 1], ops[|ops| - 1];
      if last.TrackOp? then Outstanding(before) + last.block.space
      else Outstanding(before) - SpaceOf(AnswerLedger(RunLedger(before), last))
  }

  /** The space held by the chains is the space tracked and not yet handed back. */
  lemma {:induction false} RunConservesSpace(ops: seq<Op>)
    ensures Space(Run(ops)) == Outstanding(ops)
  {
    if ops == [] {
      EmptySpace(NoBlocks());
    } else {
      var n := |ops| - 1;
      RunConservesSpace(ops[..n]);
      RunRefinesLedger(ops[..n], ops[n]);
      match ops[n] {
        case TrackOp(b) => SpaceAfterTrack(Run(ops[..n]), b);
        case RemoveOp(a) => SpaceAfterUntrack(Run(ops[..n]), a);
      }
    }
  }

  lemma {:induction false} EmptySpace(t: Table)
    requires forall h :: 0 <= h < |t| ==> t[h] == []
    ensures Space(t) == 0
  {
    if t != [] {
      EmptySpace(t[1..]);
    }
  }
}
