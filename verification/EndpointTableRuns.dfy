/**
  The Endpoint Lookup Table under interleaved operations.

  Both maps are concurrent, and each operation touches them one after the other.  An
  insertion and an activation keep the five-tuple's slot locked meanwhile; a removal does not,
  and neither does a withdrawal between finding the entry of a tether and removing it.
 */
module EndpointTableRuns {
  import opened NetDefs
  import opened EndpointTable
  import opened Wrappers

  datatype State = State(
    table: Table,
    pending: Index,
    open: set<Txn>,                       // transactions with a live handle
    inserting: map<FiveTuple, Entry>,     // indexed, slot locked, entry not stored yet
    activating: map<FiveTuple, Txn>,      // entry already active, slot locked, still indexed
    removing: map<Txn, FiveTuple>,        // entry gone, slot free, still indexed
    found: multiset<(FiveTuple, TetherId)>,   // withdrawals that have found their entry
    accepted: nat,                        // packets handed over so far; they are numbered
    left: seq<PacketId>,                  // packets that came out of the table again
    failed: bool)                         // a consistency assert fired

  const INITIAL := State(map[], map[], {}, map[], map[], map[], multiset{}, 0, [], false)

  datatype Op =
    | InsertBegin(ft: FiveTuple, txn: Txn)
    | InsertEnd(ft: FiveTuple)
    | ActivateBegin(ft: FiveTuple, tether: TetherId)
    | ActivateEnd(ft: FiveTuple)
    | RemoveBegin(ft: FiveTuple)
    | RemoveEnd(txn: Txn)
    | FindTether(ft: FiveTuple, tether: TetherId)
    | Withdraw(ft: FiveTuple, tether: TetherId)    // the first half of the removal
    | CloseTxn(txn: Txn)

  predicate Unlocked(s: State, ft: FiveTuple) {
    ft !in s.inserting && ft !in s.activating
  }

  predicate Enabled(s: State, op: Op) {
    match op
    case InsertBegin(ft, txn) => Unlocked(s, ft) && ft !in s.table && txn !in s.open
    case InsertEnd(ft) => ft in s.inserting
    case ActivateBegin(ft, _) => Unlocked(s, ft) && ft in s.table && s.table[ft].Pending?
    case ActivateEnd(ft) => ft in s.activating
    case RemoveBegin(ft) => Unlocked(s, ft) && ft in s.table
    case RemoveEnd(txn) => txn in s.removing
    case FindTether(ft, tether) => Unlocked(s, ft) && ft in s.table && s.table[ft] == Active(tether)
    case Withdraw(ft, tether) => Unlocked(s, ft) && (ft, tether) in s.found
    case CloseTxn(txn) => txn in s.open && txn !in s.pending   // the index holds a handle itself
  }

  /** Drops a transaction from the index, recording whether the consistency assert holds. */
  function Unindex(s: State, txn: Txn, ft: FiveTuple): State {
    s.(pending := s.pending - {txn},
       failed := s.failed || txn !in s.pending || s.pending[txn] != ft)
  }

  /** The entry is taken out of the table; a pending one is still indexed. */
  function TakeOut(s: State, ft: FiveTuple): State
    requires ft in s.table
  {
    var s' := s.(table := s.table - {ft});
    if s.table[ft].Active? then s'
    else s'.(removing := s.removing[s.table[ft].txn := ft], left := s.left + [s.table[ft].packet])
  }

  function Apply(s: State, op: Op): State
    requires Enabled(s, op)
  {
    match op
    case InsertBegin(ft, txn) =>
      s.(open := s.open + {txn}, pending := s.pending[txn := ft],
         inserting := s.inserting[ft := Pending(s.accepted, txn)], accepted := s.accepted + 1)
    case InsertEnd(ft) =>
      s.(table := s.table[ft := s.inserting[ft]], inserting := s.inserting - {ft})
    case ActivateBegin(ft, tether) =>
      s.(table := s.table[ft := Active(tether)], activating := s.activating[ft := s.table[ft].txn],
         left := s.left + [s.table[ft].packet])
    case ActivateEnd(ft) =>
      Unindex(s, s.activating[ft], ft).(activating := s.activating - {ft})
    case RemoveBegin(ft) => TakeOut(s, ft)
    case RemoveEnd(txn) =>
      Unindex(s, txn, s.removing[txn]).(removing := s.removing - {txn})
    case FindTether(ft, tether) =>
      s.(found := s.found + multiset{(ft, tether)})
    case Withdraw(ft, tether) =>
      (if ft in s.table then TakeOut(s, ft) else s).(found := s.found - multiset{(ft, tether)})
    case CloseTxn(txn) =>
      s.(open := s.open - {txn})
  }

  // ---------------------------------------------------------------------------------------
  // The index

  /** A transaction that is indexed because of a stored entry or of an operation under way. */
  predicate InTable(s: State, txn: Txn, ft: FiveTuple) {
    ft in s.table && s.table[ft].Pending? && s.table[ft].txn == txn
  }

  predicate InInsertion(s: State, txn: Txn, ft: FiveTuple) {
    ft in s.inserting && s.inserting[ft].Pending? && s.inserting[ft].txn == txn
  }

  predicate InActivation(s: State, txn: Txn, ft: FiveTuple) {
    ft in s.activating && s.activating[ft] == txn
  }

  predicate InRemoval(s: State, txn: Txn, ft: FiveTuple) {
    txn in s.removing && s.removing[txn] == ft
  }

  predicate Accounted(s: State, txn: Txn, ft: FiveTuple) {
    InTable(s, txn, ft) || InInsertion(s, txn, ft) || InActivation(s, txn, ft) || InRemoval(s, txn, ft)
  }

  /** The index is the inverse of the pending entries plus the operations under way. */
  ghost predicate IndexExact(s: State) {
    forall txn, ft :: (txn in s.pending && s.pending[txn] == ft) <==> Accounted(s, txn, ft)
  }

  /** Slots under a lock are in the shape their operation left them in. */
  ghost predicate LocksExact(s: State) {
    && (forall ft :: ft in s.inserting ==> ft !in s.table && s.inserting[ft].Pending?)
    && (forall ft :: ft in s.activating ==> ft in s.table && s.table[ft].Active?)
  }

  /** A transaction being removed has no other claim. */
  ghost predicate RemovalsAlone(s: State) {
    forall txn :: txn in s.removing ==>
      var ft := s.removing[txn];
      !InTable(s, txn, ft) && !InInsertion(s, txn, ft) && !InActivation(s, txn, ft)
  }

  ghost predicate IndexInv(s: State) {
    && IndexExact(s) && LocksExact(s) && RemovalsAlone(s)
    && s.pending.Keys <= s.open
    && !s.failed
  }

  lemma Exact(s: State, txn: Txn, ft: FiveTuple)
    requires IndexExact(s)
    ensures (txn in s.pending && s.pending[txn] == ft) <==> Accounted(s, txn, ft)
  {
  }

  /** A step that changes the claims of one transaction only. */
  lemma IndexAfter(s: State, t: State, moved: Txn)
    requires IndexInv(s)
    requires forall txn :: txn != moved ==> (txn in t.pending <==> txn in s.pending)
    requires forall txn :: txn != moved && txn in s.pending ==> t.pending[txn] == s.pending[txn]
    requires forall txn, ft :: txn != moved ==> (Accounted(t, txn, ft) <==> Accounted(s, txn, ft))
    requires forall ft :: (moved in t.pending && t.pending[moved] == ft) <==> Accounted(t, moved, ft)
    ensures IndexExact(t)
  {
    forall txn, ft ensures (txn in t.pending && t.pending[txn] == ft) <==> Accounted(t, txn, ft) {
      Exact(s, txn, ft);
    }
  }

  lemma InsertBeginKeepsIndex(s: State, ft: FiveTuple, txn: Txn)
    requires IndexInv(s) && Enabled(s, InsertBegin(ft, txn))
    ensures IndexInv(Apply(s, InsertBegin(ft, txn)))
  {
    var t := Apply(s, InsertBegin(ft, txn));
    forall ft' ensures !Accounted(s, txn, ft') {
      Exact(s, txn, ft');
    }
    forall ft' ensures (txn in t.pending && t.pending[txn] == ft') <==> Accounted(t, txn, ft') {
      assert !Accounted(s, txn, ft');
    }
    IndexAfter(s, t, txn);
    assert txn in s.removing ==> Accounted(s, txn, s.removing[txn]);
  }

  lemma InsertEndKeepsIndex(s: State, ft: FiveTuple)
    requires IndexInv(s) && Enabled(s, InsertEnd(ft))
    ensures IndexInv(Apply(s, InsertEnd(ft)))
  {
    var t := Apply(s, InsertEnd(ft));
    var txn := s.inserting[ft].txn;
    Exact(s, txn, ft);
    forall ft' ensures Accounted(t, txn, ft') <==> Accounted(s, txn, ft') {
      Exact(s, txn, ft');
    }
    IndexAfter(s, t, txn);
  }

  lemma ActivateBeginKeepsIndex(s: State, ft: FiveTuple, tether: TetherId)
    requires IndexInv(s) && Enabled(s, ActivateBegin(ft, tether))
    ensures IndexInv(Apply(s, ActivateBegin(ft, tether)))
  {
    var t := Apply(s, ActivateBegin(ft, tether));
    var txn := s.table[ft].txn;
    Exact(s, txn, ft);
    forall ft' ensures Accounted(t, txn, ft') <==> Accounted(s, txn, ft') {
      Exact(s, txn, ft');
    }
    IndexAfter(s, t, txn);
  }

  lemma ActivateEndKeepsIndex(s: State, ft: FiveTuple)
    requires IndexInv(s) && Enabled(s, ActivateEnd(ft))
    ensures IndexInv(Apply(s, ActivateEnd(ft)))
  {
    var t := Apply(s, ActivateEnd(ft));
    var txn := s.activating[ft];
    Exact(s, txn, ft);
    forall ft' ensures !Accounted(t, txn, ft') {
      Exact(s, txn, ft');
    }
    IndexAfter(s, t, txn);
  }

  lemma TakeOutActiveKeepsIndex(s: State, ft: FiveTuple)
    requires IndexInv(s) && Unlocked(s, ft) && ft in s.table && s.table[ft].Active?
    ensures IndexInv(TakeOut(s, ft))
  {
    var t := TakeOut(s, ft);
    forall txn, ft' ensures Accounted(t, txn, ft') <==> Accounted(s, txn, ft') {
    }
    forall txn, ft' ensures (txn in t.pending && t.pending[txn] == ft') <==> Accounted(t, txn, ft') {
      Exact(s, txn, ft');
    }
  }

  lemma TakeOutPendingKeepsIndex(s: State, ft: FiveTuple)
    requires IndexInv(s) && Unlocked(s, ft) && ft in s.table && s.table[ft].Pending?
    ensures IndexInv(TakeOut(s, ft))
  {
    var t := TakeOut(s, ft);
    var txn := s.table[ft].txn;
    Exact(s, txn, ft);
    forall ft' ensures Accounted(t, txn, ft') <==> Accounted(s, txn, ft') {
      Exact(s, txn, ft');
    }
    IndexAfter(s, t, txn);
  }

  lemma RemoveBeginKeepsIndex(s: State, ft: FiveTuple)
    requires IndexInv(s) && Unlocked(s, ft) && ft in s.table
    ensures IndexInv(TakeOut(s, ft))
  {
    if s.table[ft].Active? {
      TakeOutActiveKeepsIndex(s, ft);
    } else {
      TakeOutPendingKeepsIndex(s, ft);
    }
  }

  lemma RemoveEndKeepsIndex(s: State, txn: Txn)
    requires IndexInv(s) && Enabled(s, RemoveEnd(txn))
    ensures IndexInv(Apply(s, RemoveEnd(txn)))
  {
    var t := Apply(s, RemoveEnd(txn));
    var ft := s.removing[txn];
    assert InRemoval(s, txn, ft);
    Exact(s, txn, ft);
    forall ft' ensures !Accounted(t, txn, ft') {
      Exact(s, txn, ft');
    }
    IndexAfter(s, t, txn);
  }

  lemma StepKeepsIndex(s: State, op: Op)
    requires IndexInv(s) && Enabled(s, op)
    ensures IndexInv(Apply(s, op))
  {
    match op
    case InsertBegin(ft, txn) => InsertBeginKeepsIndex(s, ft, txn);
    case InsertEnd(ft) => InsertEndKeepsIndex(s, ft);
    case ActivateBegin(ft, tether) => ActivateBeginKeepsIndex(s, ft, tether);
    case ActivateEnd(ft) => ActivateEndKeepsIndex(s, ft);
    case RemoveBegin(ft) => RemoveBeginKeepsIndex(s, ft);
    case RemoveEnd(txn) => RemoveEndKeepsIndex(s, txn);
    case FindTether(_, _) => SameMapsKeepIndex(s, Apply(s, op));
    case Withdraw(ft, _) =>
      if ft in s.table {
        RemoveBeginKeepsIndex(s, ft);
        SameMapsKeepIndex(TakeOut(s, ft), Apply(s, op));
      } else {
        SameMapsKeepIndex(s, Apply(s, op));
      }
    case CloseTxn(txn) => SameMapsKeepIndex(s, Apply(s, op));
  }

  lemma SameMapsKeepIndex(s: State, t: State)
    requires IndexInv(s) && t == s.(open := t.open, found := t.found) && s.pending.Keys <= t.open
    ensures IndexInv(t)
  {
    forall txn, ft ensures Accounted(t, txn, ft) <==> Accounted(s, txn, ft) {
    }
  }

  // ---------------------------------------------------------------------------------------
  // The packets

  /** Packet `p` waits in the slot of `ft`. */
  predicate Holds(s: State, p: PacketId, ft: FiveTuple) {
    || (ft in s.table && s.table[ft].Pending? && s.table[ft].packet == p)
    || (ft in s.inserting && s.inserting[ft].Pending? && s.inserting[ft].packet == p)
  }

  ghost predicate Held(s: State, p: PacketId) {
    exists ft :: Holds(s, p, ft)
  }

  /** Every accepted packet waits in one slot or has left once, never both. */
  ghost predicate PacketInv(s: State) {
    && (forall p: PacketId, ft, ft' :: Holds(s, p, ft) && Holds(s, p, ft') ==> ft == ft')
    && (forall p: PacketId :: p < s.accepted <==> Held(s, p) || p in s.left)
    && (forall p: PacketId :: p in s.left ==> !Held(s, p))
    && (forall i, j :: 0 <= i < j < |s.left| ==> s.left[i] != s.left[j])
  }

  lemma PacketsStay(s: State, t: State)
    requires PacketInv(s) && t.left == s.left && t.accepted == s.accepted
    requires forall p: PacketId, ft :: Holds(t, p, ft) <==> Holds(s, p, ft)
    ensures PacketInv(t)
  {
    forall p: PacketId ensures Held(t, p) <==> Held(s, p) {
      if Held(s, p) {
        var ft :| Holds(s, p, ft);
        assert Holds(t, p, ft);
      }
    }
  }

  /** The packet in the slot of `ft` comes out. */
  lemma PacketLeaves(s: State, t: State, packet: PacketId, ft: FiveTuple)
    requires PacketInv(s) && Holds(s, packet, ft)
    requires t.left == s.left + [packet] && t.accepted == s.accepted
    requires forall p: PacketId, ft' :: Holds(t, p, ft') <==> Holds(s, p, ft') && ft' != ft
    requires forall p: PacketId :: Holds(s, p, ft) ==> p == packet
    ensures PacketInv(t)
  {
    assert Held(s, packet);
    forall p: PacketId ensures Held(t, p) <==> Held(s, p) && p != packet {
      if Held(t, p) {
        var ft' :| Holds(t, p, ft');
        assert Holds(s, p, ft');
      }
      if Held(s, p) && p != packet {
        var ft' :| Holds(s, p, ft');
        assert Holds(t, p, ft');
      }
    }
    forall p: PacketId ensures p in t.left <==> p in s.left || p == packet {
    }
  }

  lemma PacketEnters(s: State, t: State, ft: FiveTuple)
    requires PacketInv(s) && t.left == s.left && t.accepted == s.accepted + 1
    requires forall p: PacketId, ft' :: Holds(t, p, ft') <==> Holds(s, p, ft') || (p == s.accepted && ft' == ft)
    ensures PacketInv(t)
  {
    assert !Held(s, s.accepted);
    forall p: PacketId ensures Held(t, p) <==> Held(s, p) || p == s.accepted {
      if Held(t, p) {
        var ft' :| Holds(t, p, ft');
        assert Holds(s, p, ft') || p == s.accepted;
      }
      if Held(s, p) {
        var ft' :| Holds(s, p, ft');
        assert Holds(t, p, ft');
      }
      if p == s.accepted {
        assert Holds(t, p, ft);
      }
    }
    forall p: PacketId, ft', ft'' | Holds(t, p, ft') && Holds(t, p, ft'') ensures ft' == ft'' {
      if p == s.accepted {
        assert !Holds(s, p, ft') && !Holds(s, p, ft'');
      }
    }
  }

  lemma InsertBeginKeepsPackets(s: State, ft: FiveTuple, txn: Txn)
    requires LocksExact(s) && PacketInv(s) && Enabled(s, InsertBegin(ft, txn))
    ensures PacketInv(Apply(s, InsertBegin(ft, txn)))
  {
    var t := Apply(s, InsertBegin(ft, txn));
    forall p: PacketId, ft' ensures Holds(t, p, ft') <==> Holds(s, p, ft') || (p == s.accepted && ft' == ft) {
    }
    PacketEnters(s, t, ft);
  }

  lemma InsertEndKeepsPackets(s: State, ft: FiveTuple)
    requires LocksExact(s) && PacketInv(s) && Enabled(s, InsertEnd(ft))
    ensures PacketInv(Apply(s, InsertEnd(ft)))
  {
    var t := Apply(s, InsertEnd(ft));
    forall p: PacketId, ft' ensures Holds(t, p, ft') <==> Holds(s, p, ft') {
    }
    PacketsStay(s, t);
  }

  lemma ActivateBeginKeepsPackets(s: State, ft: FiveTuple, tether: TetherId)
    requires LocksExact(s) && PacketInv(s) && Enabled(s, ActivateBegin(ft, tether))
    ensures PacketInv(Apply(s, ActivateBegin(ft, tether)))
  {
    var t := Apply(s, ActivateBegin(ft, tether));
    forall p: PacketId, ft' ensures Holds(t, p, ft') <==> Holds(s, p, ft') && ft' != ft {
    }
    PacketLeaves(s, t, s.table[ft].packet, ft);
  }

  lemma TakeOutKeepsPackets(s: State, t: State, ft: FiveTuple)
    requires LocksExact(s) && PacketInv(s) && ft in s.table && t == TakeOut(s, ft).(found := t.found)
    ensures PacketInv(t)
  {
    TakeOutFields(s, ft);
    TakenOutKeepsPackets(s, t, ft);
  }

  lemma TakeOutFields(s: State, ft: FiveTuple)
    requires ft in s.table
    ensures var t := TakeOut(s, ft);
            && t.table == s.table - {ft} && t.inserting == s.inserting && t.accepted == s.accepted
            && t.left == s.left + if s.table[ft].Pending? then [s.table[ft].packet] else []
  {
    assert s.left + [] == s.left;
    if s.table[ft].Active? {
      assert TakeOut(s, ft) == s.(table := s.table - {ft});
    }
  }

  lemma TakenOutKeepsPackets(s: State, t: State, ft: FiveTuple)
    requires LocksExact(s) && PacketInv(s) && ft in s.table && t.accepted == s.accepted
    requires t.table == s.table - {ft} && t.inserting == s.inserting
    requires t.left == s.left + if s.table[ft].Pending? then [s.table[ft].packet] else []
    ensures PacketInv(t)
  {
    forall p: PacketId, ft' ensures Holds(t, p, ft') <==> Holds(s, p, ft') && ft' != ft {
      TakeOutHolds(s, t, ft, p, ft');
    }
    TakenOut(s, t, ft);
  }

  lemma TakenOut(s: State, t: State, ft: FiveTuple)
    requires LocksExact(s) && PacketInv(s) && ft in s.table && t.accepted == s.accepted
    requires t.left == s.left + if s.table[ft].Pending? then [s.table[ft].packet] else []
    requires forall p: PacketId, ft' :: Holds(t, p, ft') <==> Holds(s, p, ft') && ft' != ft
    ensures PacketInv(t)
  {
    if s.table[ft].Pending? {
      PacketLeaves(s, t, s.table[ft].packet, ft);
    } else {
      assert forall p: PacketId :: !Holds(s, p, ft);
      PacketsStay(s, t);
    }
  }

  lemma TakeOutHolds(s: State, t: State, ft: FiveTuple, p: PacketId, ft': FiveTuple)
    requires LocksExact(s) && ft in s.table && t.table == s.table - {ft} && t.inserting == s.inserting
    ensures Holds(t, p, ft') <==> Holds(s, p, ft') && ft' != ft
  {
  }

  lemma SameSlotsKeepPackets(s: State, t: State)
    requires PacketInv(s) && t.left == s.left && t.accepted == s.accepted
    requires t.table == s.table && t.inserting == s.inserting
    ensures PacketInv(t)
  {
    forall p: PacketId, ft ensures Holds(t, p, ft) <==> Holds(s, p, ft) {
    }
    PacketsStay(s, t);
  }

  lemma StepKeepsPackets(s: State, op: Op)
    requires LocksExact(s) && PacketInv(s) && Enabled(s, op)
    ensures PacketInv(Apply(s, op))
  {
    match op
    case InsertBegin(ft, txn) => InsertBeginKeepsPackets(s, ft, txn);
    case InsertEnd(ft) => InsertEndKeepsPackets(s, ft);
    case ActivateBegin(ft, tether) => ActivateBeginKeepsPackets(s, ft, tether);
    case RemoveBegin(ft) => TakeOutKeepsPackets(s, Apply(s, op), ft);
    case Withdraw(ft, _) =>
      if ft in s.table {
        TakeOutKeepsPackets(s, Apply(s, op), ft);
      } else {
        SameSlotsKeepPackets(s, Apply(s, op));
      }
    case _ => SameSlotsKeepPackets(s, Apply(s, op));
  }

  // ---------------------------------------------------------------------------------------
  // Every run

  ghost predicate StepAt(states: seq<State>, ops: seq<Op>, n: nat)
    requires n < |ops| && |states| == |ops| + 1
  {
    Enabled(states[n], ops[n]) && states[n + 1] == Apply(states[n], ops[n])
  }

  ghost predicate IsRun(states: seq<State>, ops: seq<Op>) {
    && |states| == |ops| + 1 && states[0] == INITIAL
    && forall n: nat :: n < |ops| ==> StepAt(states, ops, n)
  }

  lemma {:induction false} RunKeepsInv(states: seq<State>, ops: seq<Op>, n: nat)
    requires IsRun(states, ops) && n < |states|
    ensures IndexInv(states[n]) && PacketInv(states[n])
  {
    if n == 0 {
      assert forall p: PacketId :: !Held(INITIAL, p);
    } else {
      RunKeepsInv(states, ops, n - 1);
      assert StepAt(states, ops, n - 1);
      StepKeepsIndex(states[n - 1], ops[n - 1]);
      StepKeepsPackets(states[n - 1], ops[n - 1]);
    }
  }

  /**
    In every state of every interleaving no consistency assert has fired, the index accounts
    for exactly the pending entries and the operations under way, and every accepted packet
    is either still waiting or has left the table exactly once.
   */
  lemma TableSafe(states: seq<State>, ops: seq<Op>, n: nat)
    requires IsRun(states, ops) && n < |states|
    ensures var s := states[n];
            && !s.failed
            && (forall txn, ft :: (txn in s.pending && s.pending[txn] == ft) <==> Accounted(s, txn, ft))
            && (forall p: PacketId :: p < s.accepted <==> Held(s, p) || p in s.left)
            && (forall p: PacketId :: p in s.left ==> !Held(s, p))
            && (forall i, j :: 0 <= i < j < |s.left| ==> s.left[i] != s.left[j])
  {
    RunKeepsInv(states, ops, n);
  }

  /** With nothing under way the two maps are inverse, as the sequential operations assume. */
  lemma QuiescentInverse(states: seq<State>, ops: seq<Op>, n: nat)
    requires IsRun(states, ops) && n < |states|
    requires states[n].inserting == map[] && states[n].activating == map[] && states[n].removing == map[]
    ensures Inverse(states[n].table, states[n].pending)
  {
    RunKeepsInv(states, ops, n);
    var s := states[n];
    forall ft | ft in s.table && s.table[ft].Pending?
      ensures s.table[ft].txn in s.pending && s.pending[s.table[ft].txn] == ft
    {
      assert InTable(s, s.table[ft].txn, ft);
      Exact(s, s.table[ft].txn, ft);
    }
    forall txn | txn in s.pending ensures InTable(s, txn, s.pending[txn]) {
      Exact(s, txn, s.pending[txn]);
    }
  }

  // ---------------------------------------------------------------------------------------
  // Withdrawals

  function Slot(s: State, ft: FiveTuple): Option<Entry> {
    if ft in s.table then Some(s.table[ft]) else None
  }

  predicate Empties(op: Op, ft: FiveTuple) {
    (op.RemoveBegin? || op.Withdraw?) && op.ft == ft
  }

  predicate Activates(op: Op, ft: FiveTuple) {
    op.ActivateBegin? && op.ft == ft
  }

  predicate Touches(op: Op, ft: FiveTuple) {
    op == InsertEnd(ft) || Activates(op, ft) || Empties(op, ft)
  }

  // How one operation changes a slot.

  lemma InsertEndSlot(s: State, ft: FiveTuple, slot: FiveTuple)
    requires LocksExact(s) && Enabled(s, InsertEnd(ft))
    ensures var after := Slot(Apply(s, InsertEnd(ft)), slot);
            if slot == ft then after.Some? && after.value.Pending? else after == Slot(s, slot)
  {
  }

  lemma ActivateBeginSlot(s: State, ft: FiveTuple, tether: TetherId, slot: FiveTuple)
    requires Enabled(s, ActivateBegin(ft, tether))
    ensures Slot(Apply(s, ActivateBegin(ft, tether)), slot) ==
            if slot == ft then Some(Active(tether)) else Slot(s, slot)
  {
  }

  lemma TakeOutSlot(s: State, ft: FiveTuple, slot: FiveTuple)
    requires ft in s.table
    ensures Slot(TakeOut(s, ft), slot) == if slot == ft then None else Slot(s, slot)
  {
  }

  lemma EmptyingSlot(s: State, op: Op, slot: FiveTuple)
    requires Enabled(s, op) && (op.RemoveBegin? || op.Withdraw?)
    ensures Slot(Apply(s, op), slot) == if slot == op.ft then None else Slot(s, slot)
  {
    if op.ft in s.table {
      TakeOutSlot(s, op.ft, slot);
    }
  }

  lemma OtherOpSlot(s: State, op: Op, slot: FiveTuple)
    requires Enabled(s, op)
    requires !op.InsertEnd? && !op.ActivateBegin? && !op.RemoveBegin? && !op.Withdraw?
    ensures Slot(Apply(s, op), slot) == Slot(s, slot)
  {
    assert Apply(s, op).table == s.table;
  }

  /** What an operation leaves in a slot, by the operation alone if it touches the slot. */
  lemma SlotStep(s: State, op: Op, ft: FiveTuple)
    requires LocksExact(s) && Enabled(s, op)
    ensures op == InsertEnd(ft) ==> Slot(Apply(s, op), ft).Some? && Slot(Apply(s, op), ft).value.Pending?
    ensures Activates(op, ft) ==> Slot(Apply(s, op), ft) == Some(Active(op.tether))
    ensures Empties(op, ft) ==> Slot(Apply(s, op), ft) == None
    ensures !Touches(op, ft) ==> Slot(Apply(s, op), ft) == Slot(s, ft)
  {
    match op
    case InsertEnd(ft') => InsertEndSlot(s, ft', ft);
    case ActivateBegin(ft', tether) => ActivateBeginSlot(s, ft', tether, ft);
    case RemoveBegin(_) => EmptyingSlot(s, op, ft);
    case Withdraw(_, _) => EmptyingSlot(s, op, ft);
    case _ => OtherOpSlot(s, op, ft);
  }

  /** Operation `j`, after `m` and before `n`, is the last one there to touch the slot. */
  ghost predicate LastTouch(ops: seq<Op>, j: nat, m: nat, n: nat, ft: FiveTuple) {
    && m < j < n <= |ops| && Touches(ops[j], ft)
    && forall k :: j < k < n ==> !Touches(ops[k], ft)
  }

  ghost predicate Untouched(ops: seq<Op>, m: nat, n: nat, ft: FiveTuple) {
    m < n <= |ops| && forall k :: m < k < n ==> !Touches(ops[k], ft)
  }

  /** What the last operation to touch a slot leaves there. */
  ghost predicate LeftBy(ops: seq<Op>, j: nat, ft: FiveTuple, slot: Option<Entry>)
    requires j < |ops|
  {
    && (ops[j] == InsertEnd(ft) ==> slot.Some? && slot.value.Pending?)
    && (Activates(ops[j], ft) ==> slot == Some(Active(ops[j].tether)))
    && (Empties(ops[j], ft) ==> slot == None)
  }

  /** A slot is as the entry was found, or as the last operation to touch it left it. */
  lemma {:induction false} SlotHistory(states: seq<State>, ops: seq<Op>, m: nat, n: nat, ft: FiveTuple,
                                       tether: TetherId)
    requires IsRun(states, ops) && m < n <= |ops| && ops[m] == FindTether(ft, tether)
    ensures Untouched(ops, m, n, ft) ==> Slot(states[n], ft) == Some(Active(tether))
    ensures forall j: nat :: LastTouch(ops, j, m, n, ft) ==> LeftBy(ops, j, ft, Slot(states[n], ft))
    ensures Untouched(ops, m, n, ft) || exists j: nat :: LastTouch(ops, j, m, n, ft)
    decreases n
  {
    var k := n - 1;
    assert StepAt(states, ops, k);
    RunKeepsInv(states, ops, k);
    SlotStep(states[k], ops[k], ft);
    if m < k {
      SlotHistory(states, ops, m, k, ft, tether);
      if Touches(ops[k], ft) {
        assert LastTouch(ops, k, m, n, ft);
        forall j: nat | LastTouch(ops, j, m, n, ft) ensures j == k {
        }
      } else {
        forall j: nat ensures LastTouch(ops, j, m, n, ft) <==> LastTouch(ops, j, m, k, ft) {
        }
        assert Untouched(ops, m, n, ft) <==> Untouched(ops, m, k, ft);
      }
    }
  }

  /**
    What a withdrawal meets in the slot of the entry it found, counted from any of its finds,
    on every interleaving: the found entry if nothing touched the slot since; otherwise what
    the last operation to touch it was about.
   */
  lemma WithdrawsIff(states: seq<State>, ops: seq<Op>, m: nat, n: nat, ft: FiveTuple, tether: TetherId)
    requires IsRun(states, ops) && m < n <= |ops| && ops[m] == FindTether(ft, tether)
    ensures Slot(states[n], ft).Some? && Slot(states[n], ft).value.Pending? <==>
            exists j: nat :: LastTouch(ops, j, m, n, ft) && ops[j] == InsertEnd(ft)
    ensures Slot(states[n], ft).None? <==> exists j: nat :: LastTouch(ops, j, m, n, ft) && Empties(ops[j], ft)
    ensures forall other :: Slot(states[n], ft) == Some(Active(other)) <==>
              || (Untouched(ops, m, n, ft) && other == tether)
              || exists j: nat :: LastTouch(ops, j, m, n, ft) && ops[j] == ActivateBegin(ft, other)
  {
    SlotHistory(states, ops, m, n, ft, tether);
    if !Untouched(ops, m, n, ft) {
      var j: nat :| LastTouch(ops, j, m, n, ft);
      assert LeftBy(ops, j, ft, Slot(states[n], ft));
      forall j': nat | LastTouch(ops, j', m, n, ft) ensures j' == j {
      }
    }
  }

  /** Every withdrawal has found its entry before. */
  lemma {:induction false} WasFound(states: seq<State>, ops: seq<Op>, n: nat, ft: FiveTuple, tether: TetherId)
    returns (m: nat)
    requires IsRun(states, ops) && n <= |ops| && (ft, tether) in states[n].found
    ensures m < n && ops[m] == FindTether(ft, tether)
    decreases n
  {
    if n > 0 {
      assert StepAt(states, ops, n - 1);
      FoundStep(states[n - 1], ops[n - 1], ft, tether);
      if (ft, tether) in states[n - 1].found {
        m := WasFound(states, ops, n - 1, ft, tether);
      } else {
        m := n - 1;
      }
    }
  }

  /** Only finding an entry adds to the entries found. */
  lemma FoundStep(s: State, op: Op, ft: FiveTuple, tether: TetherId)
    requires Enabled(s, op) && (ft, tether) in Apply(s, op).found
    ensures (ft, tether) in s.found || op == FindTether(ft, tether)
  {
    match op
    case FindTether(_, _) =>
    case Withdraw(ft', tether') => assert Apply(s, op).found == s.found - multiset{(ft', tether')};
    case _ => assert Apply(s, op).found == s.found;
  }

  /** The withdrawal of a run has a find to count from. */
  lemma WithdrawalFollowsFind(states: seq<State>, ops: seq<Op>, n: nat) returns (m: nat)
    requires IsRun(states, ops) && n < |ops| && ops[n].Withdraw?
    ensures m < n && ops[m] == FindTether(ops[n].ft, ops[n].tether)
  {
    assert StepAt(states, ops, n);
    m := WasFound(states, ops, n, ops[n].ft, ops[n].tether);
  }

  lemma Extended(states: seq<State>, ops: seq<Op>, op: Op, t: State)
    requires IsRun(states, ops) && Enabled(states[|ops|], op) && t == Apply(states[|ops|], op)
    ensures IsRun(states + [t], ops + [op])
  {
    forall n: nat | n <= |ops| ensures StepAt(states + [t], ops + [op], n) {
      assert n < |ops| ==> StepAt(states, ops, n);
    }
  }

  /** A run that binds `ft` to the tether and finds it. */
  lemma FoundRun(ft: FiveTuple, tether: TetherId) returns (states: seq<State>, ops: seq<Op>)
    ensures IsRun(states, ops) && |ops| == 5
    ensures states[5] == State(map[ft := Active(tether)], map[], {0}, map[], map[], map[],
                               multiset{(ft, tether)}, 1, [0], false)
  {
    var entry, active := Pending(0, 0), map[ft := Active(tether)];
    var s1 := State(map[], map[0 := ft], {0}, map[ft := entry], map[], map[], multiset{}, 1, [], false);
    var s2 := State(map[ft := entry], map[0 := ft], {0}, map[], map[], map[], multiset{}, 1, [], false);
    var s3 := State(active, map[0 := ft], {0}, map[], map[ft := 0], map[], multiset{}, 1, [0], false);
    var s4 := State(active, map[], {0}, map[], map[], map[], multiset{}, 1, [0], false);
    states, ops := [INITIAL], [];
    Extended(states, ops, InsertBegin(ft, 0), s1);
    states, ops := states + [s1], ops + [InsertBegin(ft, 0)];
    Extended(states, ops, InsertEnd(ft), s2);
    states, ops := states + [s2], ops + [InsertEnd(ft)];
    Extended(states, ops, ActivateBegin(ft, tether), s3);
    states, ops := states + [s3], ops + [ActivateBegin(ft, tether)];
    Extended(states, ops, ActivateEnd(ft), s4);
    states, ops := states + [s4], ops + [ActivateEnd(ft)];
    var s5 := s4.(found := multiset{(ft, tether)});
    Extended(states, ops, FindTether(ft, tether), s5);
    states, ops := states + [s5], ops + [FindTether(ft, tether)];
  }

  /** That does happen: a withdrawal can take out a pending entry, and its packet with it. */
  lemma PendingWithdrawn(ft: FiveTuple, tether: TetherId) returns (states: seq<State>, ops: seq<Op>)
    ensures IsRun(states, ops) && |ops| == 9 && ops[8] == Withdraw(ft, tether)
    ensures ft in states[8].table && states[8].table[ft] == Pending(1, 1) && states[9].left == [0, 1]
  {
    states, ops := FoundRun(ft, tether);
    var entry, found := Pending(1, 1), multiset{(ft, tether)};
    var s6 := State(map[], map[], {0}, map[], map[], map[], found, 1, [0], false);
    var s7 := State(map[], map[1 := ft], {0, 1}, map[ft := entry], map[], map[], found, 2, [0], false);
    var s8 := State(map[ft := entry], map[1 := ft], {0, 1}, map[], map[], map[], found, 2, [0], false);
    var s9 := State(map[], map[1 := ft], {0, 1}, map[], map[], map[1 := ft], multiset{}, 2, [0, 1], false);
    Extended(states, ops, RemoveBegin(ft), s6);
    states, ops := states + [s6], ops + [RemoveBegin(ft)];
    Extended(states, ops, InsertBegin(ft, 1), s7);
    states, ops := states + [s7], ops + [InsertBegin(ft, 1)];
    Extended(states, ops, InsertEnd(ft), s8);
    states, ops := states + [s8], ops + [InsertEnd(ft)];
    Extended(states, ops, Withdraw(ft, tether), s9);
    states, ops := states + [s9], ops + [Withdraw(ft, tether)];
  }
}
