/** What holds of every run of the connection manager. */
module VsConnTheorems {
  import opened VsConn

  // ---------------------------------------------------------------------------------------
  // Lifecycle events

  /** Event `i` opens a run-loop span that is still open just before position `k`. */
  predicate OpensSpan(events: seq<Event>, i: nat, k: nat) {
    && i < k <= |events| && events[i].RunLoopStarts?
    && forall j :: i < j < k ==> events[j].ConnectedToVsApi?
  }

  ghost predicate InSpan(events: seq<Event>, k: nat) {
    exists i :: OpensSpan(events, i, k)
  }

  /** As `InSpan`, with no successful connect in the span yet. */
  ghost predicate InFreshSpan(events: seq<Event>, k: nat) {
    0 < k <= |events| && events[k - 1].RunLoopStarts?
  }

  /**
    The order of lifecycle events: loops start only outside a span and connect only inside
    one, right after its start; an exit outside a span is the last event.
   */
  ghost predicate Lifecycle(events: seq<Event>) {
    && (forall k :: 0 <= k < |events| && events[k].RunLoopStarts? ==> !InSpan(events, k))
    && (forall k :: 0 <= k < |events| && events[k].ConnectedToVsApi? ==> InFreshSpan(events, k))
    && (forall k :: 0 <= k < |events| - 1 && events[k].RunLoopExits? ==> InSpan(events, k))
  }

  /** The phase knows where the events stand. */
  ghost predicate LifecycleInv(s: State) {
    && Lifecycle(s.events)
    && (s.phase.Running? <==> InSpan(s.events, |s.events|))
    && (s.phase.Running? && s.phase.handle.None? ==> InFreshSpan(s.events, |s.events|))
    && (!s.phase.Done? ==>
          forall k :: 0 <= k < |s.events| && s.events[k].RunLoopExits? ==> InSpan(s.events, k))
  }

  lemma SpanBeforeEnd(events: seq<Event>, e: Event, k: nat)
    requires k <= |events|
    ensures InSpan(events + [e], k) <==> InSpan(events, k)
  {
    var longer := events + [e];
    assert forall j :: 0 <= j < k ==> longer[j] == events[j];
    forall i: nat ensures OpensSpan(longer, i, k) <==> OpensSpan(events, i, k) {
    }
  }

  lemma SpanAtEnd(events: seq<Event>, e: Event)
    ensures InSpan(events + [e], |events| + 1) <==>
            e.RunLoopStarts? || (e.ConnectedToVsApi? && InSpan(events, |events|))
  {
    var longer := events + [e];
    var n := |events|;
    assert longer[n] == e && forall j :: 0 <= j < n ==> longer[j] == events[j];
    assert OpensSpan(longer, n, n + 1) <==> e.RunLoopStarts?;
    forall i: nat | i < n ensures OpensSpan(longer, i, n + 1) <==> e.ConnectedToVsApi? && OpensSpan(events, i, n) {
      if OpensSpan(longer, i, n + 1) {
        assert longer[n].ConnectedToVsApi?;
      }
    }
    if InSpan(longer, n + 1) {
      var i: nat :| OpensSpan(longer, i, n + 1);
      assert i < n ==> OpensSpan(events, i, n);
    }
    if InSpan(events, n) {
      var i: nat :| OpensSpan(events, i, n);
      assert e.ConnectedToVsApi? ==> OpensSpan(longer, i, n + 1);
    }
  }

  /** Appending an event that fits where the events stand. */
  lemma LifecycleAppend(events: seq<Event>, e: Event)
    requires Lifecycle(events)
    requires forall k :: 0 <= k < |events| && events[k].RunLoopExits? ==> InSpan(events, k)
    requires e.RunLoopStarts? ==> !InSpan(events, |events|)
    requires e.ConnectedToVsApi? ==> InFreshSpan(events, |events|)
    ensures Lifecycle(events + [e])
    ensures (e.RunLoopExits? ==> InSpan(events, |events|)) ==>
            forall k :: 0 <= k <= |events| && (events + [e])[k].RunLoopExits? ==> InSpan(events + [e], k)
  {
    forall k | 0 <= k <= |events| ensures InSpan(events + [e], k) <==> InSpan(events, k) {
      SpanBeforeEnd(events, e, k);
    }
    forall k | 0 <= k <= |events| && (events + [e])[k].ConnectedToVsApi? ensures InFreshSpan(events + [e], k) {
      assert InFreshSpan(events, k);
    }
  }

  /** The event that a step adds, if any. */
  lemma StepEvents(s: State, input: Input)
    ensures var t := Step(s, input);
            t.events == s.events || (exists e :: t.events == s.events + [e])
  {
  }

  lemma StepKeepsLifecycle(s: State, input: Input)
    requires LifecycleInv(s)
    ensures LifecycleInv(Step(s, input))
  {
    var t := Step(s, input);
    if t.events != s.events {
      StepEvents(s, input);
      var e :| t.events == s.events + [e];
      assert e == t.events[|s.events|];
      LifecycleAppend(s.events, e);
      SpanAtEnd(s.events, e);
    }
  }

  lemma {:induction false} RunKeepsLifecycle(inputs: seq<Input>)
    ensures LifecycleInv(Exec(inputs))
  {
    if inputs != [] {
      RunKeepsLifecycle(inputs[..|inputs| - 1]);
      StepKeepsLifecycle(Exec(inputs[..|inputs| - 1]), inputs[|inputs| - 1]);
    } else {
      assert !InSpan([], 0);
    }
  }

  predicate ConsecutiveStarts(events: seq<Event>, i: nat, j: nat) {
    && i < j < |events| && events[i].RunLoopStarts? && events[j].RunLoopStarts?
    && forall m :: i < m < j ==> !events[m].RunLoopStarts?
  }

  ghost predicate ExitBetween(events: seq<Event>, i: nat, j: nat, k: nat) {
    i < k < j <= |events| && events[k].RunLoopExits?
  }

  ghost predicate OneExitBetween(events: seq<Event>, i: nat, j: nat) {
    exists k: nat :: ExitBetween(events, i, j, k) && forall k': nat :: ExitBetween(events, i, j, k') ==> k' == k
  }

  /**
    On every run: between two starts with none in between there is exactly one exit; a
    successful connect directly follows the start of its span, so there is at most one per
    span; and an exit outside a span is the last event.
   */
  lemma LifecycleSafe(inputs: seq<Input>)
    ensures var events := Exec(inputs).events;
            && (forall i: nat, j: nat :: ConsecutiveStarts(events, i, j) ==> OneExitBetween(events, i, j))
            && (forall k :: 0 <= k < |events| && events[k].ConnectedToVsApi? ==>
                  k > 0 && events[k - 1].RunLoopStarts?)
            && (forall k :: 0 <= k < |events| && events[k].RunLoopExits? && !InSpan(events, k) ==> k == |events| - 1)
  {
    RunKeepsLifecycle(inputs);
    var events := Exec(inputs).events;
    forall i: nat, j: nat | ConsecutiveStarts(events, i, j)
      ensures OneExitBetween(events, i, j)
    {
      OneExit(events, i, j);
    }
  }

  lemma OneExit(events: seq<Event>, i: nat, j: nat)
    requires Lifecycle(events) && ConsecutiveStarts(events, i, j)
    ensures OneExitBetween(events, i, j)
  {
    if forall m :: i < m < j ==> events[m].ConnectedToVsApi? {
      assert OpensSpan(events, i, j);
      assert InSpan(events, j);
      assert false;
    }
    var k :| i < k < j && !events[k].ConnectedToVsApi?;
    assert ExitBetween(events, i, j, k);
    forall k': nat | ExitBetween(events, i, j, k') ensures k' == k {
      assert InSpan(events, k) && InSpan(events, k');
    }
  }
}
