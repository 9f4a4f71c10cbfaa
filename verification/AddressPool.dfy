/** The pool of AAA addresses: 40-bit ids probed cyclically and packed into IPv6 addresses. */
module AddressPool {
  import opened NetDefs

  const ID_SPACE: nat := 0x100_0000_0000
  const MAX_AAA_ID: nat := 0xFF_FFFF_FFFF
  const AAA_SEGMENT: Word := 0x0AAA

  type Segments = s: seq<Word> | |s| == 8 witness [0, 0, 0, 0, 0, 0, 0, 0]

  datatype Network = Network(address: Segments, prefixLength: nat)

  datatype PoolError = InvalidAddress | InvalidPrefixLength

  datatype ReleaseResult = Released | Refused(error: PoolError)

  // ---------------------------------------------------------------------------------------
  // Packing an id into an address

  function SegmentBytes(s: Segments): IpAddress {
    U16Bytes(s[0]) + U16Bytes(s[1]) + U16Bytes(s[2]) + U16Bytes(s[3]) +
    U16Bytes(s[4]) + U16Bytes(s[5]) + U16Bytes(s[6]) + U16Bytes(s[7])
  }

  function AaaSegments(net: Network, id: nat): Segments {
    net.address[..5] +
    [net.address[5] / 0x100 * 0x100 + id / 0x1_0000_0000 % 0x100, id / 0x1_0000 % 0x1_0000, id % 0x1_0000]
  }

  function AaaAddress(net: Network, id: nat): IpAddress {
    SegmentBytes(AaaSegments(net, id))
  }

  /** The big-endian number in the last five bytes. */
  function AaaId(a: IpAddress): nat {
    (((a[11] as int * 0x100 + a[12] as int) * 0x100 + a[13] as int) * 0x100 + a[14] as int) * 0x100 + a[15] as int
  }

  predicate HasAaaSegment(a: IpAddress) {
    a[6] == 0x0A && a[7] == 0xAA
  }

  /** Releasing an address recovers exactly the id it was made from. */
  lemma IdRoundTrip(net: Network, id: nat)
    requires id < ID_SPACE
    ensures AaaId(AaaAddress(net, id)) == id
    ensures var a := AaaAddress(net, id);
            id == a[11] as int * 0x1_0000_0000 + a[12] as int * 0x100_0000 + a[13] as int * 0x1_0000 +
                  a[14] as int * 0x100 + a[15] as int
  {
    var a := AaaAddress(net, id);
    LowBytes(net.address[5], id);
  }

  lemma LowBytes(base: Word, id: nat)
    requires id < ID_SPACE
    ensures var s5 := base / 0x100 * 0x100 + id / 0x1_0000_0000 % 0x100;
            s5 % 0x100 == id / 0x1_0000_0000 && s5 / 0x100 == base / 0x100
    ensures var s6 := id / 0x1_0000 % 0x1_0000;
            (id / 0x1_0000_0000 * 0x100 + s6 / 0x100) * 0x100 + s6 % 0x100 == id / 0x1_0000
  {
  }

  /** The pool's addresses agree with the network in the top 88 bits. */
  lemma SharesPrefix(net: Network, id: nat)
    requires id < ID_SPACE
    ensures AaaAddress(net, id)[..11] == SegmentBytes(net.address)[..11]
  {
    LowBytes(net.address[5], id);
  }

  lemma AddressesDistinct(net: Network, id: nat, id': nat)
    requires id < ID_SPACE && id' < ID_SPACE
    ensures AaaAddress(net, id) == AaaAddress(net, id') <==> id == id'
  {
    IdRoundTrip(net, id);
    IdRoundTrip(net, id');
  }

  /** A pool takes its own addresses back exactly when its network carries the AAA segment. */
  lemma OwnAddressReleasable(net: Network, id: nat)
    requires id < ID_SPACE
    ensures HasAaaSegment(AaaAddress(net, id)) <==> net.address[3] == AAA_SEGMENT
  {
    assert AaaSegments(net, id)[3] == net.address[3];
  }

  // ---------------------------------------------------------------------------------------
  // Probing

  /** The id looked at after `k` collisions. */
  function Probe(start: nat, k: nat): nat {
    if k == 0 then start else (start + k) % MAX_AAA_ID
  }

  /** How far `to` lies ahead of `from` in the cycle of ids. */
  function Ahead(from: nat, to: nat): int {
    if to >= from then to - from else to - from + MAX_AAA_ID
  }

  ghost predicate SomeFree(active: set<nat>, start: nat) {
    start !in active || exists id: nat :: id < MAX_AAA_ID && id !in active
  }

  /** `id` is free and every probe before it hit a taken id. */
  ghost predicate FirstFree(active: set<nat>, start: nat, id: nat) {
    id !in active && exists k: nat :: id == Probe(start, k) && AllTaken(active, start, k)
  }

  ghost predicate AllTaken(active: set<nat>, start: nat, k: nat) {
    forall j: nat :: j < k ==> Probe(start, j) in active
  }

  lemma ProbeStep(start: nat, k: nat)
    requires start < ID_SPACE
    ensures Probe(start, k) < ID_SPACE
    ensures Probe(start, k + 1) == (Probe(start, k) + 1) % MAX_AAA_ID
  {
    if k > 0 {
      var m := (start + k) % MAX_AAA_ID;
      var q := (start + k) / MAX_AAA_ID;
      assert start + k == q * MAX_AAA_ID + m;
      if m + 1 == MAX_AAA_ID {
        assert start + k + 1 == (q + 1) * MAX_AAA_ID;
      } else {
        assert start + k + 1 == q * MAX_AAA_ID + (m + 1);
      }
    }
  }

  lemma CloserToGoal(id: nat, goal: nat)
    requires id < ID_SPACE && goal < MAX_AAA_ID && id != goal
    ensures var next := (id + 1) % MAX_AAA_ID;
            next < MAX_AAA_ID && (id < MAX_AAA_ID ==> Ahead(next, goal) == Ahead(id, goal) - 1)
  {
  }

  /** Every id of the cycle is reached within one turn. */
  lemma ProbeReaches(start: nat, id: nat)
    requires start < ID_SPACE && id < MAX_AAA_ID
    ensures exists k: nat :: k <= MAX_AAA_ID && Probe(start, k) == id
  {
    var k := if start == MAX_AAA_ID then (if id == 0 then MAX_AAA_ID else id) else Ahead(start, id);
    assert Probe(start, k) == id;
  }

  /** The probe sequence meets a free id exactly when there is one it can reach. */
  lemma ProbeHaltsIff(active: set<nat>, start: nat)
    requires start < ID_SPACE
    ensures SomeFree(active, start) <==> exists k: nat :: Probe(start, k) !in active
  {
    if start !in active {
      assert Probe(start, 0) !in active;
    } else if SomeFree(active, start) {
      var id: nat :| id < MAX_AAA_ID && id !in active;
      ProbeReaches(start, id);
    } else {
      forall k: nat ensures Probe(start, k) in active {
      }
    }
  }

  /** The first id from which probing runs through the cycle. */
  function CycleStart(start: nat): nat {
    if start == MAX_AAA_ID then 1 else start
  }

  /**
    The id chosen after a collision, or from a start inside the cycle, is the free id that
    lies the shortest way ahead.
   */
  lemma FirstFreeIsNearest(active: set<nat>, start: nat, id: nat, other: nat)
    requires start < ID_SPACE && FirstFree(active, start, id)
    requires start < MAX_AAA_ID || start in active
    requires other < MAX_AAA_ID && other !in active
    ensures id < MAX_AAA_ID
    ensures Ahead(CycleStart(start), id) <= Ahead(CycleStart(start), other)
  {
    var k: nat :| id == Probe(start, k) && AllTaken(active, start, k);
    var d := Ahead(CycleStart(start), other);
    var j := if start == MAX_AAA_ID then d + 1 else d;
    assert Probe(start, j) == other;
    assert k <= j;
  }

  // ---------------------------------------------------------------------------------------
  // The pool

  class Pool {
    const net: Network
    var active: set<nat>

    ghost predicate Valid()
      reads this
    {
      forall id :: id in active ==> id < ID_SPACE
    }

    constructor (net: Network)
      ensures this.net == net && active == {} && Valid()
    {
      this.net := net;
      active := {};
    }

    /** Allocates from a random start; the caller must leave some id free. */
    method GetAaaAddress(random: nat) returns (address: IpAddress, ghost id: nat)
      requires Valid() && SomeFree(active, random % ID_SPACE)
      modifies this
      ensures Valid()
      ensures FirstFree(old(active), random % ID_SPACE, id) && id < ID_SPACE
      ensures active == old(active) + {id} && address == AaaAddress(net, id)
    {
      var start := random % ID_SPACE;
      var thisId := start;
      ghost var k: nat := 0;
      ghost var goal: nat := if start !in active then 0 else FreeId(active, start);
      while thisId in active
        invariant active == old(active)
        invariant thisId == Probe(start, k) && thisId < ID_SPACE && AllTaken(active, start, k)
        invariant k > 0 ==> thisId < MAX_AAA_ID
        invariant start in active ==> goal < MAX_AAA_ID && goal !in active
        decreases if thisId == MAX_AAA_ID then MAX_AAA_ID + 1 else Ahead(thisId, goal)
      {
        ProbeStep(start, k);
        CloserToGoal(thisId, goal);
        thisId := (thisId + 1) % MAX_AAA_ID;
        k := k + 1;
      }
      assert FirstFree(active, start, thisId);
      active := active + {thisId};
      address, id := AaaAddress(net, thisId), thisId;
    }

    /** An address without the AAA segment is refused; releasing an inactive one changes nothing. */
    method ReleaseAddress(address: IpAddress) returns (r: ReleaseResult)
      requires Valid()
      modifies this
      ensures Valid()
      ensures r == if HasAaaSegment(address) then Released else Refused(InvalidAddress)
      ensures active == if HasAaaSegment(address) then old(active) - {AaaId(address)} else old(active)
    {
      if address[6] != 0x0A || address[7] != 0xAA {
        return Refused(InvalidAddress);
      }
      active := active - {AaaId(address)};
      r := Released;
    }
  }

  datatype NewResult = Made(pool: Pool) | NotMade(error: PoolError)

  /** `AddressPool::new`: the network must leave room for 40 bits. */
  method NewPool(net: Network) returns (r: NewResult)
    ensures r.NotMade? <==> net.prefixLength > 88
    ensures r.NotMade? ==> r.error == InvalidPrefixLength
    ensures r.Made? ==> fresh(r.pool) && r.pool.net == net && r.pool.active == {} && r.pool.Valid()
  {
    if net.prefixLength > 88 {
      return NotMade(InvalidPrefixLength);
    }
    var pool := new Pool(net);
    r := Made(pool);
  }

  ghost function FreeId(active: set<nat>, start: nat): (id: nat)
    requires SomeFree(active, start) && start in active
    ensures id < MAX_AAA_ID && id !in active
  {
    var id: nat :| id < MAX_AAA_ID && id !in active;
    id
  }

  // ---------------------------------------------------------------------------------------
  // Every run of allocations and releases of live addresses

  datatype State = State(active: set<nat>, live: seq<IpAddress>)

  datatype Op = Allocate(random: nat) | Release(index: nat)

  ghost predicate Step(net: Network, s: State, op: Op, t: State) {
    match op
    case Allocate(random) =>
      exists id: nat ::
        && FirstFree(s.active, random % ID_SPACE, id) && id < ID_SPACE
        && t == State(s.active + {id}, s.live + [AaaAddress(net, id)])
    case Release(index) =>
      && index < |s.live|
      && t == if HasAaaSegment(s.live[index])
              then State(s.active - {AaaId(s.live[index])}, s.live[..index] + s.live[index + 1..])
              else s
  }

  ghost predicate IsRun(net: Network, states: seq<State>, ops: seq<Op>) {
    && |states| == |ops| + 1 && states[0] == State({}, [])
    && forall i :: 0 <= i < |ops| ==> Step(net, states[i], ops[i], states[i + 1])
  }

  ghost predicate Inv(net: Network, s: State) {
    && |s.active| == |s.live|
    && (forall i :: 0 <= i < |s.live| ==>
          AaaId(s.live[i]) < ID_SPACE && AaaId(s.live[i]) in s.active &&
          s.live[i] == AaaAddress(net, AaaId(s.live[i])))
    && (forall i, j :: 0 <= i < j < |s.live| ==> AaaId(s.live[i]) != AaaId(s.live[j]))
  }

  lemma StepKeepsInv(net: Network, s: State, op: Op, t: State)
    requires Inv(net, s) && Step(net, s, op, t)
    ensures Inv(net, t)
  {
    match op
    case Allocate(random) =>
      var id: nat :| FirstFree(s.active, random % ID_SPACE, id) && id < ID_SPACE &&
                     t == State(s.active + {id}, s.live + [AaaAddress(net, id)]);
      AllocateKeepsInv(net, s, id, t);
    case Release(index) =>
      ReleaseKeepsInv(net, s, index, t);
  }

  lemma AllocateKeepsInv(net: Network, s: State, id: nat, t: State)
    requires Inv(net, s) && id < ID_SPACE && id !in s.active
    requires t == State(s.active + {id}, s.live + [AaaAddress(net, id)])
    ensures Inv(net, t)
  {
    IdRoundTrip(net, id);
    forall i | 0 <= i < |s.live| ensures t.live[i] == s.live[i] && AaaId(t.live[i]) != id {
    }
  }

  lemma ReleaseKeepsInv(net: Network, s: State, index: nat, t: State)
    requires Inv(net, s) && Step(net, s, Release(index), t)
    ensures Inv(net, t)
  {
    if HasAaaSegment(s.live[index]) {
      assert |t.active| == |s.active| - 1;
      forall i | 0 <= i < |t.live|
        ensures t.live[i] == s.live[if i < index then i else i + 1]
      {
      }
    }
  }

  lemma {:induction false} RunKeepsInv(net: Network, states: seq<State>, ops: seq<Op>, n: nat)
    requires IsRun(net, states, ops) && n < |states|
    ensures Inv(net, states[n])
  {
    if n > 0 {
      RunKeepsInv(net, states, ops, n - 1);
      StepKeepsInv(net, states[n - 1], ops[n - 1], states[n]);
    }
  }

  /**
    In every state of every run the live addresses are pairwise distinct, share the network's
    top 88 bits and are counted by `len`; each one's id is active and recovers the address.
   */
  lemma PoolSafe(net: Network, states: seq<State>, ops: seq<Op>, n: nat)
    requires IsRun(net, states, ops) && n < |states|
    ensures var s := states[n];
            && |s.active| == |s.live|
            && (forall i, j :: 0 <= i < j < |s.live| ==> s.live[i] != s.live[j])
            && (forall i :: 0 <= i < |s.live| ==> s.live[i][..11] == SegmentBytes(net.address)[..11])
            && (forall i :: 0 <= i < |s.live| ==>
                  AaaId(s.live[i]) in s.active && AaaAddress(net, AaaId(s.live[i])) == s.live[i])
  {
    RunKeepsInv(net, states, ops, n);
    var s := states[n];
    forall i | 0 <= i < |s.live| ensures s.live[i][..11] == SegmentBytes(net.address)[..11] {
      SharesPrefix(net, AaaId(s.live[i]));
    }
  }
}
