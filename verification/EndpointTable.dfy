/** The Endpoint Lookup Table: five-tuples to entries, with a reverse index of open transactions. */
module EndpointTable {
  import opened NetDefs

  type Txn = nat
  type PacketId = nat
  type TetherId = nat

  datatype Entry = Pending(packet: PacketId, txn: Txn) | Active(tether: TetherId)

  type Table = map<FiveTuple, Entry>
  type Index = map<Txn, FiveTuple>

  datatype InsertResult = Inserted | AlreadyPending | DuplicateTransaction
  datatype SetActiveResult = Activated(packet: PacketId) | NotFound | NotPending
  datatype RemoveResult = Removed(entry: Entry) | NothingRemoved
  datatype LookupResult = Found(ft: FiveTuple) | Missing

  /** `pending` is exactly the inverse of the pending entries of `table`. */
  ghost predicate Inverse(table: Table, pending: Index) {
    && (forall ft :: ft in table && table[ft].Pending? ==> table[ft].txn in pending && pending[table[ft].txn] == ft)
    && (forall txn :: txn in pending ==>
          pending[txn] in table && table[pending[txn]].Pending? && table[pending[txn]].txn == txn)
  }

  class EndpointLookupTable {
    var table: Table
    var pending: Index

    constructor ()
      ensures table == map[] && pending == map[]
    {
      table, pending := map[], map[];
    }

    /**
      A transaction that is already indexed is reported only after its index entry has been
      overwritten: that is the one case in which the two maps stop being inverse.
     */
    method InsertPending(ft: FiveTuple, packet: PacketId, txn: Txn) returns (r: InsertResult)
      requires Inverse(table, pending)
      modifies this
      ensures r == if ft in old(table) then AlreadyPending
                   else if txn in old(pending) then DuplicateTransaction
                   else Inserted
      ensures table == if r.Inserted? then old(table)[ft := Pending(packet, txn)] else old(table)
      ensures pending == if r.AlreadyPending? then old(pending) else old(pending)[txn := ft]
      ensures Inverse(table, pending) <==> !r.DuplicateTransaction?
    {
      if ft in table {
        return AlreadyPending;
      }
      var duplicate := txn in pending;
      pending := pending[txn := ft];
      if duplicate {
        return DuplicateTransaction;
      }
      table := table[ft := Pending(packet, txn)];
      r := Inserted;
    }

    method LookupPending(txn: Txn) returns (r: LookupResult)
      requires Inverse(table, pending)
      ensures r.Found? ==> r.ft in table && table[r.ft].Pending? && table[r.ft].txn == txn
      ensures r.Missing? ==> forall ft :: ft in table && table[ft].Pending? ==> table[ft].txn != txn
    {
      r := if txn in pending then Found(pending[txn]) else Missing;
    }

    method SetActive(ft: FiveTuple, tether: TetherId) returns (r: SetActiveResult)
      requires Inverse(table, pending)
      modifies this
      ensures Inverse(table, pending)
      ensures r == if ft !in old(table) then NotFound
                   else match old(table)[ft]
                        case Active(_) => NotPending
                        case Pending(packet, _) => Activated(packet)
      ensures table == if r.Activated? then old(table)[ft := Active(tether)] else old(table)
      ensures r.Activated? ==> pending == old(pending) - {old(table)[ft].txn}
      ensures !r.Activated? ==> pending == old(pending)
    {
      if ft !in table {
        return NotFound;
      }
      match table[ft]
      case Active(_) => return NotPending;
      case Pending(packet, txn) =>
        table := table[ft := Active(tether)];
        assert txn in pending && pending[txn] == ft;
        pending := pending - {txn};
        r := Activated(packet);
    }

    method Remove(ft: FiveTuple) returns (r: RemoveResult)
      requires Inverse(table, pending)
      modifies this
      ensures Inverse(table, pending)
      ensures r == if ft in old(table) then Removed(old(table)[ft]) else NothingRemoved
      ensures table == old(table) - {ft}
      ensures forall txn :: txn in pending <==> txn in old(pending) && old(pending)[txn] != ft
      ensures forall txn :: txn in pending ==> pending[txn] == old(pending)[txn]
    {
      if ft !in table {
        assert table - {ft} == table;
        return NothingRemoved;
      }
      var entry := table[ft];
      table := table - {ft};
      match entry {
        case Pending(_, txn) =>
          assert txn in pending && pending[txn] == ft;
          pending := pending - {txn};
        case Active(_) =>
      }
      r := Removed(entry);
    }

    /** Withdraws one active entry with the tether id, if there is any; pending ones never match. */
    method RemoveByTetherId(tether: TetherId) returns (r: LookupResult)
      requires Inverse(table, pending)
      modifies this
      ensures Inverse(table, pending)
      ensures r.Found? ==> r.ft in old(table) && old(table)[r.ft] == Active(tether) && table == old(table) - {r.ft}
      ensures r.Missing? ==> table == old(table) && forall ft :: ft in table ==> table[ft] != Active(tether)
      ensures pending == old(pending)
    {
      if ft :| ft in table && table[ft] == Active(tether) {
        var _ := Remove(ft);
        assert pending == old(pending);
        r := Found(ft);
      } else {
        r := Missing;
      }
    }

    /** Takes a snapshot of the keys and removes them one by one. */
    method Clear()
      requires Inverse(table, pending)
      modifies this
      ensures table == map[] && pending == map[]
    {
      var snapshot := table.Keys;
      while snapshot != {}
        invariant Inverse(table, pending) && table.Keys <= snapshot
        decreases snapshot
      {
        var ft :| ft in snapshot;
        var _ := Remove(ft);
        snapshot := snapshot - {ft};
      }
    }
  }
}
