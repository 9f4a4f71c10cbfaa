/** Batched I/O: completions into results, whatever their order, and the unbatched loop. */
module BatchIo {
  import opened Wrappers

  const EAGAIN := 11
  const EWOULDBLOCK := 11
  const MAX_ENTRIES := 1024
  const CONNRESET_RETRY_CAP := 64

  datatype IoResult<Res> = Ok(value: Res) | Err(errno: int)

  // ---------------------------------------------------------------------------------------
  // io_uring

  /** One entry of the completion queue. */
  datatype Completion = Completion(idx: nat, result: int)

  /** The completions of a batch in submission order. */
  function InOrder(outcomes: seq<int>): seq<Completion> {
    seq(|outcomes|, i requires 0 <= i < |outcomes| => Completion(i, outcomes[i]))
  }

  /** What slot `i` holds once its operation has completed with `outcome`. */
  function Slot<State, Res>(i: nat, outcome: int, state: State, process: (nat, State, nat) -> Res): IoResult<Res> {
    if outcome == -EAGAIN then Err(EWOULDBLOCK)
    else if outcome < 0 then Err(-outcome)
    else Ok(process(i, state, outcome))
  }

  /** One past the last operation that did not block. */
  function Reach(outcomes: seq<int>): (n: nat)
    ensures n <= |outcomes|
    ensures n > 0 ==> outcomes[n - 1] != -EAGAIN
    ensures forall i :: n <= i < |outcomes| ==> outcomes[i] == -EAGAIN
  {
    if outcomes == [] then 0
    else if outcomes[|outcomes| - 1] != -EAGAIN then |outcomes|
    else Reach(outcomes[..|outcomes| - 1])
  }

  /** The results of a batch: every operation in its slot, gaps filled, blocked tail dropped. */
  function Assembled<State, Res>(outcomes: seq<int>, states: seq<State>, process: (nat, State, nat) -> Res)
    : seq<IoResult<Res>>
    requires |states| == |outcomes|
  {
    seq(Reach(outcomes), i requires 0 <= i < Reach(outcomes) => Slot(i, outcomes[i], states[i], process))
  }

  /** Enters operations into the submission queue; one item too many is taken off the iterator. */
  method Submit<Item, State>(items: seq<Item>, capacity: nat, build: (Item, nat) -> State)
    returns (states: seq<State>, consumed: nat)
    requires capacity <= MAX_ENTRIES
    ensures |states| == if |items| <= capacity then |items| else capacity
    ensures forall i :: 0 <= i < |states| ==> states[i] == build(items[i], i)
    ensures consumed == if |items| <= capacity then |items| else capacity + 1
  {
    states, consumed := [], 0;
    while consumed < |items|
      invariant consumed == |states| <= |items| && |states| <= capacity
      invariant forall i :: 0 <= i < |states| ==> states[i] == build(items[i], i)
    {
      var item := items[consumed];
      consumed := consumed + 1;
      if |states| >= capacity {
        break;
      }
      assert |states| < MAX_ENTRIES;
      states := states + [build(item, |states|)];
    }
  }

  lemma CountTwo<T>(s: seq<T>, i: nat, j: nat)
    requires i < j < |s| && s[i] == s[j]
    ensures multiset(s)[s[i]] >= 2
  {
    assert s == s[..j] + [s[j]] + s[j + 1..];
    assert s[i] in s[..j];
  }

  lemma {:induction false} CountOne(s: seq<Completion>, n: nat)
    requires n <= |s| && forall i :: 0 <= i < |s| ==> s[i].idx == i
    ensures forall c :: multiset(s[..n])[c] <= 1
    ensures forall c :: c in s[..n] ==> c.idx < n
  {
    if n > 0 {
      CountOne(s, n - 1);
      assert s[..n] == s[..n - 1] + [s[n - 1]];
    }
  }

  /** Operation `i` is among the first `n` completions. */
  ghost predicate Named(completions: seq<Completion>, n: nat, i: nat)
    requires n <= |completions|
  {
    exists k :: 0 <= k < n && completions[k].idx == i
  }

  /** A reordering of the completions still names every operation exactly once. */
  lemma ReorderingIsBijective(completions: seq<Completion>, outcomes: seq<int>)
    requires multiset(completions) == multiset(InOrder(outcomes))
    ensures forall k :: 0 <= k < |completions| ==>
              completions[k].idx < |outcomes| && completions[k].result == outcomes[completions[k].idx]
    ensures forall j, k :: 0 <= j < k < |completions| ==> completions[j].idx != completions[k].idx
    ensures forall i :: 0 <= i < |outcomes| ==> Named(completions, |completions|, i)
  {
    var ops := InOrder(outcomes);
    forall k | 0 <= k < |completions|
      ensures completions[k].idx < |outcomes| && completions[k].result == outcomes[completions[k].idx]
    {
      assert completions[k] in multiset(ops);
    }
    CountOne(ops, |ops|);
    assert ops[..|ops|] == ops;
    forall j, k | 0 <= j < k < |completions| ensures completions[j].idx != completions[k].idx {
      if completions[j].idx == completions[k].idx {
        CountTwo(completions, j, k);
        assert false;
      }
    }
    forall i | 0 <= i < |outcomes| ensures Named(completions, |completions|, i) {
      assert ops[i] in multiset(ops);
      assert ops[i] in completions;
    }
  }

  lemma NamedNext(completions: seq<Completion>, k: nat)
    requires k < |completions|
    ensures forall i: nat :: Named(completions, k + 1, i) <==> Named(completions, k, i) || i == completions[k].idx
  {
    forall i: nat ensures Named(completions, k + 1, i) <==> Named(completions, k, i) || i == completions[k].idx {
    }
  }

  /** The outcomes known so far: an operation still under way counts as blocked. */
  ghost function Masked(outcomes: seq<int>, done: set<nat>): seq<int> {
    seq(|outcomes|, i requires 0 <= i < |outcomes| => if i in done then outcomes[i] else -EAGAIN)
  }

  /** Puts a result into its slot, padding the vector when the slot lies beyond its end. */
  function Place<Res>(results: seq<IoResult<Res>>, at: nat, r: IoResult<Res>): seq<IoResult<Res>> {
    var padded := if at < |results| then results else results + seq(at + 1 - |results|, _ => Err(EWOULDBLOCK));
    padded[at := r]
  }

  lemma ReachUnique(outcomes: seq<int>, n: nat)
    requires n <= |outcomes| && (n > 0 ==> outcomes[n - 1] != -EAGAIN)
    requires forall i :: n <= i < |outcomes| ==> outcomes[i] == -EAGAIN
    ensures Reach(outcomes) == n
  {
  }

  /** One more completion, wherever it falls, takes the vector to that of one more outcome. */
  lemma PlaceStep<State, Res>(outcomes: seq<int>, done: set<nat>, idx: nat, states: seq<State>,
                              process: (nat, State, nat) -> Res)
    requires |states| == |outcomes| && idx < |outcomes| && idx !in done && outcomes[idx] != -EAGAIN
    ensures Place(Assembled(Masked(outcomes, done), states, process), idx,
                  Slot(idx, outcomes[idx], states[idx], process)) ==
            Assembled(Masked(outcomes, done + {idx}), states, process)
  {
    var before, after := Masked(outcomes, done), Masked(outcomes, done + {idx});
    assert forall i :: 0 <= i < |after| ==> after[i] == if i == idx then outcomes[idx] else before[i];
    ReachUnique(after, if idx < Reach(before) then Reach(before) else idx + 1);
  }

  lemma BlockedStep(outcomes: seq<int>, done: set<nat>, idx: nat)
    requires idx < |outcomes| && outcomes[idx] == -EAGAIN
    ensures Masked(outcomes, done + {idx}) == Masked(outcomes, done)
  {
  }

  /** `results[base + idx] = r`, after filling skipped-over slots with EWOULDBLOCK. */
  method Store<Res>(results0: seq<IoResult<Res>>, base: nat, idx: nat, r: IoResult<Res>)
    returns (results: seq<IoResult<Res>>)
    requires base <= |results0|
    ensures results == results0[..base] + Place(results0[base..], idx, r)
  {
    results := results0;
    if idx >= |results| - base {
      results := results + seq(base + idx + 1 - |results|, _ => Err(EWOULDBLOCK));
    }
    results := results[base + idx := r];
  }

  /** The per-operation states that are left: a successful operation has taken its own. */
  ghost function StatesLeft<State>(states: seq<State>, outcomes: seq<int>, done: set<nat>): seq<Option<State>>
    requires |states| == |outcomes|
  {
    seq(|states|, i requires 0 <= i < |states| => if i in done && outcomes[i] >= 0 then None else Some(states[i]))
  }

  /** Handles one completion: `done` are the operations completed before it. */
  method CompleteOne<State, Res>(c: Completion, process: (nat, State, nat) -> Res, base: nat,
                                 results0: seq<IoResult<Res>>, slab0: seq<Option<State>>,
                                 ghost states: seq<State>, ghost outcomes: seq<int>, ghost done: set<nat>)
    returns (results: seq<IoResult<Res>>, slab: seq<Option<State>>)
    requires |states| == |outcomes| && c.idx < |outcomes| && c.result == outcomes[c.idx] && c.idx !in done
    requires base <= |results0| && results0[base..] == Assembled(Masked(outcomes, done), states, process)
    requires slab0 == StatesLeft(states, outcomes, done)
    ensures results == results0[..base] + Assembled(Masked(outcomes, done + {c.idx}), states, process)
    ensures slab == StatesLeft(states, outcomes, done + {c.idx})
  {
    results, slab := results0, slab0;
    if c.result == -EAGAIN {
      BlockedStep(outcomes, done, c.idx);
      assert results == results0[..base] + results0[base..];
    } else {
      PlaceStep(outcomes, done, c.idx, states, process);
      var r;
      if c.result < 0 {
        r := Err(-c.result);
      } else {
        assert slab[c.idx].Some?;
        r := Ok(process(c.idx, slab[c.idx].value, c.result));
        slab := slab[c.idx := None];
      }
      results := Store(results, base, c.idx, r);
    }
  }

  lemma AssembledSlots<State, Res>(outcomes: seq<int>, states: seq<State>, process: (nat, State, nat) -> Res,
                                   results0: seq<IoResult<Res>>, results: seq<IoResult<Res>>)
    requires |states| == |outcomes| && results == results0 + Assembled(outcomes, states, process)
    ensures |results| == |results0| + Reach(outcomes)
    ensures forall i :: 0 <= i < Reach(outcomes) && outcomes[i] >= 0 ==>
              results[|results0| + i] == Ok(process(i, states[i], outcomes[i]))
    ensures forall i :: 0 <= i < Reach(outcomes) && outcomes[i] < 0 ==> results[|results0| + i] == Err(-outcomes[i])
  {
  }

  /**
    Folds completions, in whatever order they come out, into the results.  The appended
    vector depends on the outcomes only, and a state is taken exactly where the operation
    succeeded.
   */
  method Collect<State, Res>(completions: seq<Completion>, states: seq<State>, process: (nat, State, nat) -> Res,
                             results0: seq<IoResult<Res>>, ghost outcomes: seq<int>)
    returns (results: seq<IoResult<Res>>, count: nat, slab: seq<Option<State>>)
    requires |states| == |outcomes| && multiset(completions) == multiset(InOrder(outcomes))
    ensures results == results0 + Assembled(outcomes, states, process)
    ensures count == Reach(outcomes) && |results| == |results0| + count
    ensures forall i :: 0 <= i < count && outcomes[i] >= 0 ==>
              results[|results0| + i] == Ok(process(i, states[i], outcomes[i]))
    ensures forall i :: 0 <= i < count && outcomes[i] < 0 ==> results[|results0| + i] == Err(-outcomes[i])
    ensures |slab| == |states|
    ensures forall i :: 0 <= i < |slab| ==> slab[i] == if outcomes[i] >= 0 then None else Some(states[i])
  {
    ReorderingIsBijective(completions, outcomes);
    results := results0;
    slab := seq(|states|, i requires 0 <= i < |states| => Some(states[i]));
    ghost var done: set<nat> := {};
    var base := |results0|;
    ReachUnique(Masked(outcomes, done), 0);
    for k := 0 to |completions|
      invariant forall i: nat :: i in done <==> Named(completions, k, i)
      invariant results == results0 + Assembled(Masked(outcomes, done), states, process)
      invariant slab == StatesLeft(states, outcomes, done)
    {
      assert !Named(completions, k, completions[k].idx);
      NamedNext(completions, k);
      assert results[base..] == Assembled(Masked(outcomes, done), states, process);
      results, slab := CompleteOne(completions[k], process, base, results, slab, states, outcomes, done);
      done := done + {completions[k].idx};
    }
    assert Masked(outcomes, done) == outcomes;
    AssembledSlots(outcomes, states, process, results0, results);
    count := |results| - base;
  }

  /** The whole io_uring batch, given how the kernel completes it. */
  method DoBatchOp<Item, State, Res>(items: seq<Item>, capacity: nat, build: (Item, nat) -> State,
                                     process: (nat, State, nat) -> Res, completions: seq<Completion>,
                                     results0: seq<IoResult<Res>>, ghost outcomes: seq<int>)
    returns (results: seq<IoResult<Res>>, count: nat)
    requires capacity <= MAX_ENTRIES
    requires |outcomes| == if |items| <= capacity then |items| else capacity
    requires multiset(completions) == multiset(InOrder(outcomes))
    ensures results0 <= results && count == |results| - |results0| == Reach(outcomes)
    ensures count > 0 ==> outcomes[count - 1] != -EAGAIN
    ensures forall i :: count <= i < |outcomes| ==> outcomes[i] == -EAGAIN
    ensures forall i :: 0 <= i < count && outcomes[i] >= 0 ==>
              results[|results0| + i] == Ok(process(i, build(items[i], i), outcomes[i]))
    ensures forall i :: 0 <= i < count && outcomes[i] < 0 ==> results[|results0| + i] == Err(-outcomes[i])
  {
    var states, _ := Submit(items, capacity, build);
    var slab;
    results, count, slab := Collect(completions, states, process, results0, outcomes);
  }

  // ---------------------------------------------------------------------------------------
  // The unbatched engines

  function FirstError<Res>(outcomes: seq<IoResult<Res>>): (k: nat)
    ensures k <= |outcomes|
    ensures forall i :: 0 <= i < k ==> outcomes[i].Ok?
    ensures k < |outcomes| ==> outcomes[k].Err?
  {
    if outcomes == [] || outcomes[0].Err? then 0 else 1 + FirstError(outcomes[1..])
  }

  /** A failing first item fails the batch; a later failure only ends it. */
  function UnbatchedReturn<Res>(outcomes: seq<IoResult<Res>>): IoResult<nat> {
    var k := FirstError(outcomes);
    if k == 0 && outcomes != [] then Err(outcomes[0].errno) else Ok(k)
  }

  method Unbatched<Res>(outcomes: seq<IoResult<Res>>, results0: seq<IoResult<Res>>)
    returns (results: seq<IoResult<Res>>, r: IoResult<nat>, consumed: nat)
    ensures results == results0 + outcomes[..FirstError(outcomes)]
    ensures r == UnbatchedReturn(outcomes)
    ensures r.Err? <==> outcomes != [] && outcomes[0].Err?
    ensures r.Err? ==> r.errno == outcomes[0].errno
    ensures r.Ok? ==> r.value == |results| - |results0|
    ensures consumed == if FirstError(outcomes) < |outcomes| then FirstError(outcomes) + 1 else |outcomes|
  {
    results, consumed := results0, 0;
    var completed := 0;
    while consumed < |outcomes|
      invariant completed == consumed <= FirstError(outcomes)
      invariant results == results0 + outcomes[..completed]
    {
      var res := outcomes[consumed];
      consumed := consumed + 1;
      if res.Err? {
        if completed == 0 {
          return results, Err(res.errno), consumed;
        }
        break;
      }
      results := results + [res];
      completed := completed + 1;
    }
    r := Ok(completed);
  }

  /** What the unbatched engine sees where io_uring sees raw outcomes. */
  function Translated<State, Res>(outcomes: seq<int>, states: seq<State>, process: (nat, State, nat) -> Res)
    : seq<IoResult<Res>>
    requires |states| == |outcomes|
  {
    seq(|outcomes|, i requires 0 <= i < |outcomes| => Slot(i, outcomes[i], states[i], process))
  }

  /** The engines append the same results exactly when nothing but blocking follows the first failure. */
  lemma EnginesAgreeIff<State, Res>(outcomes: seq<int>, states: seq<State>, process: (nat, State, nat) -> Res)
    requires |states| == |outcomes|
    ensures var seen := Translated(outcomes, states, process);
            var k := FirstError(seen);
            Assembled(outcomes, states, process) == seen[..k] <==>
            forall i :: k <= i < |outcomes| ==> outcomes[i] == -EAGAIN
  {
    var seen := Translated(outcomes, states, process);
    var k := FirstError(seen);
    if forall i :: k <= i < |outcomes| ==> outcomes[i] == -EAGAIN {
      assert k > 0 ==> seen[k - 1].Ok?;
      assert Reach(outcomes) == k;
      assert Assembled(outcomes, states, process) == seen[..k];
    } else {
      assert Reach(outcomes) > k;
      assert |Assembled(outcomes, states, process)| != |seen[..k]|;
    }
  }

  /** Then they return the same count, save that an empty batch is an error to one of them only. */
  lemma EngineReturns<State, Res>(outcomes: seq<int>, states: seq<State>, process: (nat, State, nat) -> Res, k: nat)
    requires |states| == |outcomes| && k <= |outcomes|
    requires forall i :: 0 <= i < k ==> outcomes[i] >= 0
    requires forall i :: k <= i < |outcomes| ==> outcomes[i] == -EAGAIN
    ensures var seen := Translated(outcomes, states, process);
            && Assembled(outcomes, states, process) == seen[..k] && FirstError(seen) == k && Reach(outcomes) == k
            && UnbatchedReturn(seen) == if k == 0 && outcomes != [] then Err(EWOULDBLOCK) else Ok(Reach(outcomes))
  {
    var seen := Translated(outcomes, states, process);
    assert k < |outcomes| ==> seen[k].Err?;
    assert forall i :: 0 <= i < k ==> seen[i].Ok?;
    EnginesAgreeIff(outcomes, states, process);
    assert |Assembled(outcomes, states, process)| == k;
  }
}
