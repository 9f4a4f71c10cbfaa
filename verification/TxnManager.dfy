/** Transaction ids, reserved for as long as any handle to them lives. */
module TxnManager {
  const TXN_IDS: nat := 0x1_0000

  datatype OpenResult = Opened(id: nat) | NoneFree

  class TxnMgr {
    /** The id to hand out next, which may still be taken. */
    var nextFree: nat
    /** Reference counts, 0 standing for the initial reference. */
    var open: map<nat, nat>
    /** Every handle in existence, once per clone. */
    ghost var handles: multiset<nat>

    ghost predicate Valid()
      reads this
    {
      && nextFree < TXN_IDS
      && (forall id :: id in open <==> id in handles)
      && (forall id :: id in open ==> id < TXN_IDS && handles[id] == open[id] + 1)
    }

    constructor ()
      ensures Valid() && handles == multiset{}
    {
      nextFree, open, handles := 0, map[], multiset{};
    }

    /** A freshly opened transaction has no handle anywhere else. */
    method TryOpen() returns (r: OpenResult)
      requires Valid()
      modifies this
      ensures Valid()
      ensures r == if old(nextFree in open) then NoneFree else Opened(old(nextFree))
      ensures r.Opened? ==> r.id !in old(handles) && handles == old(handles) + multiset{r.id}
      ensures r.Opened? ==> nextFree == (old(nextFree) + 1) % TXN_IDS
      ensures r.NoneFree? ==> handles == old(handles) && nextFree == old(nextFree)
    {
      if nextFree in open {
        return NoneFree;
      }
      r := Opened(nextFree);
      open := open[nextFree := 0];
      handles := handles + multiset{nextFree};
      nextFree := (nextFree + 1) % TXN_IDS;
    }

    /** Cloning a live handle never panics. */
    method RefTxn(id: nat)
      requires Valid() && id in handles
      modifies this
      ensures Valid() && handles == old(handles) + multiset{id} && nextFree == old(nextFree)
    {
      open := open[id := open[id] + 1];
      handles := handles + multiset{id};
    }

    /** Dropping a live handle never panics, and only the last one frees the id. */
    method DerefTxn(id: nat) returns (notify: bool)
      requires Valid() && id in handles
      modifies this
      ensures Valid() && handles == old(handles) - multiset{id} && nextFree == old(nextFree)
      ensures id !in open <==> old(handles)[id] == 1
      ensures notify <==> id !in handles && id == nextFree
    {
      handles := handles - multiset{id};
      if open[id] > 0 {
        open := open[id := open[id] - 1];
        return false;
      }
      open := open - {id};
      notify := nextFree == id;
    }
  }
}
