/** Receiving a batch from a socket that may report resets from departed peers. */
module ResetTolerantReceive {
  import opened BatchIo

  /** The outcome of one `recv_from`. */
  datatype Receive<Res> = Datagram(value: Res) | Reset | Failure(errno: int)

  /** Every outcome the socket would give, call after call. */
  type Stream<Res> = nat -> Receive<Res>

  /** The calls `lo..hi` all report resets. */
  ghost predicate AllReset<Res>(stream: Stream<Res>, lo: nat, hi: nat) {
    forall i :: lo <= i < hi ==> stream(i).Reset?
  }

  const ATTEMPTS: nat := CONNRESET_RETRY_CAP + 1

  /** How one receive with retries ends, starting at call `from` and having made calls up to `to`. */
  ghost predicate Retried<Res>(stream: Stream<Res>, from: nat, to: nat, r: IoResult<Res>) {
    && from < to <= from + ATTEMPTS
    && AllReset(stream, from, to - 1)
    && match stream(to - 1)
       case Datagram(value) => r == Ok(value)
       case Failure(errno) => r == Err(errno)
       case Reset => r == Err(EWOULDBLOCK) && to == from + ATTEMPTS
  }

  method RecvRetryingConnreset<Res>(stream: Stream<Res>, from: nat) returns (r: IoResult<Res>, to: nat)
    ensures Retried(stream, from, to, r)
  {
    var resets := 0;
    to := from;
    while true
      invariant to == from + resets && resets <= CONNRESET_RETRY_CAP && AllReset(stream, from, to)
      decreases CONNRESET_RETRY_CAP - resets
    {
      var outcome := stream(to);
      to := to + 1;
      match outcome
      case Datagram(value) => return Ok(value), to;
      case Failure(errno) => return Err(errno), to;
      case Reset =>
        if resets >= CONNRESET_RETRY_CAP {
          return Err(EWOULDBLOCK), to;
        }
        resets := resets + 1;
    }
  }

  /** The datagrams among the first `n` calls, in order. */
  function Datagrams<Res>(stream: Stream<Res>, n: nat): seq<IoResult<Res>> {
    if n == 0 then []
    else if stream(n - 1).Datagram? then Datagrams(stream, n - 1) + [Ok(stream(n - 1).value)]
    else Datagrams(stream, n - 1)
  }

  /** Call `n` is the one after which a batch that still has buffers gives up. */
  ghost predicate GivesUpAt<Res>(stream: Stream<Res>, n: nat) {
    n > 0 && (stream(n - 1).Failure? || (n >= ATTEMPTS && AllReset(stream, n - ATTEMPTS, n)))
  }

  /** No batch with room for `buffers` datagrams stops before call `calls`. */
  ghost predicate QuietBefore<Res>(stream: Stream<Res>, buffers: nat, calls: nat) {
    forall n: nat {:trigger GivesUpAt(stream, n)} ::
      n < calls ==> |Datagrams(stream, n)| < buffers && !GivesUpAt(stream, n)
  }

  /**
    Where a batch with room for `buffers` datagrams stops: it has filled them, or it has just
    met a failure or a run of 65 resets; and neither happened before.
   */
  ghost predicate StopsAt<Res>(stream: Stream<Res>, buffers: nat, calls: nat) {
    && (|Datagrams(stream, calls)| == buffers || GivesUpAt(stream, calls))
    && QuietBefore(stream, buffers, calls)
  }

  /** There is only one such place. */
  lemma StopUnique<Res>(stream: Stream<Res>, buffers: nat, calls: nat, calls': nat)
    requires StopsAt(stream, buffers, calls) && StopsAt(stream, buffers, calls')
    ensures calls == calls'
  {
    assert GivesUpAt(stream, calls) || !GivesUpAt(stream, calls);
    assert GivesUpAt(stream, calls') || !GivesUpAt(stream, calls');
  }

  lemma {:induction false} ResetsAddNothing<Res>(stream: Stream<Res>, from: nat, to: nat)
    requires from <= to && AllReset(stream, from, to)
    ensures Datagrams(stream, to) == Datagrams(stream, from)
  {
    if from < to {
      ResetsAddNothing(stream, from, to - 1);
    }
  }

  /** A retried receive adds its datagram, if any, and does not pass a place to give up. */
  lemma RetriedStep<Res>(stream: Stream<Res>, from: nat, to: nat, r: IoResult<Res>)
    requires Retried(stream, from, to, r)
    requires from == 0 || stream(from - 1).Datagram?
    ensures r.Ok? ==> Datagrams(stream, to) == Datagrams(stream, from) + [r] && stream(to - 1).Datagram?
    ensures r.Err? ==> Datagrams(stream, to) == Datagrams(stream, from) && GivesUpAt(stream, to)
    ensures forall n: nat {:trigger GivesUpAt(stream, n)} ::
              from < n < to ==> Datagrams(stream, n) == Datagrams(stream, from) && !GivesUpAt(stream, n)
  {
    ResetsAddNothing(stream, from, to - 1);
    forall n: nat | from < n < to
      ensures Datagrams(stream, n) == Datagrams(stream, from) && !GivesUpAt(stream, n)
    {
      ResetsAddNothing(stream, from, n);
      if n >= ATTEMPTS {
        assert n - ATTEMPTS <= from - 1 < n && !stream(from - 1).Reset?;
      }
    }
  }

  /** Before the retried receive, at its start and during it, there is no reason to stop. */
  lemma QuietStep<Res>(stream: Stream<Res>, from: nat, to: nat, r: IoResult<Res>, buffers: nat)
    requires Retried(stream, from, to, r) && (from == 0 || stream(from - 1).Datagram?)
    requires QuietBefore(stream, |Datagrams(stream, from)|, from) && |Datagrams(stream, from)| < buffers
    ensures QuietBefore(stream, buffers, to)
  {
    RetriedStep(stream, from, to, r);
    forall n: nat {:trigger GivesUpAt(stream, n)} | n < to
      ensures |Datagrams(stream, n)| < buffers && !GivesUpAt(stream, n)
    {
      if n == from {
        NotAfterDatagram(stream, n);
      } else {
        assert !GivesUpAt(stream, n);
      }
    }
  }

  lemma NotAfterDatagram<Res>(stream: Stream<Res>, n: nat)
    requires n == 0 || stream(n - 1).Datagram?
    ensures !GivesUpAt(stream, n)
  {
  }

  /** One buffer of a batch: what the retried receive adds, and why it did not stop earlier. */
  method ReceiveInto<Res>(stream: Stream<Res>, from: nat, ghost buffers: nat) returns (r: IoResult<Res>, to: nat)
    requires from == 0 || stream(from - 1).Datagram?
    requires QuietBefore(stream, |Datagrams(stream, from)|, from) && |Datagrams(stream, from)| < buffers
    ensures from < to <= from + ATTEMPTS
    ensures r.Ok? ==> Datagrams(stream, to) == Datagrams(stream, from) + [r] && stream(to - 1).Datagram?
    ensures r.Ok? ==> QuietBefore(stream, |Datagrams(stream, to)|, to)
    ensures r.Err? ==> Datagrams(stream, to) == Datagrams(stream, from) && StopsAt(stream, buffers, to)
    ensures r.Err? ==> r.errno == if stream(to - 1).Failure? then stream(to - 1).errno else EWOULDBLOCK
  {
    r, to := RecvRetryingConnreset(stream, from);
    RetriedStep(stream, from, to, r);
    QuietStep(stream, from, to, r, buffers);
    if r.Ok? {
      QuietStep(stream, from, to, r, |Datagrams(stream, to)|);
    }
  }

  /**
    The batch delivers the datagrams up to the place where it stops, in order, with at most
    65 receive calls per buffer; it reports an error only when it delivered nothing.
   */
  method RecvFromBatch<Res>(stream: Stream<Res>, buffers: nat, results0: seq<IoResult<Res>>)
    returns (results: seq<IoResult<Res>>, r: IoResult<nat>, calls: nat)
    ensures StopsAt(stream, buffers, calls)
    ensures results == results0 + Datagrams(stream, calls)
    ensures calls <= ATTEMPTS * buffers
    ensures Datagrams(stream, calls) != [] || buffers == 0 ==> r == Ok(|Datagrams(stream, calls)|)
    ensures Datagrams(stream, calls) == [] && buffers > 0 ==>
              r == Err(if stream(calls - 1).Failure? then stream(calls - 1).errno else EWOULDBLOCK)
  {
    results, calls := results0, 0;
    var completed := 0;
    for item := 0 to buffers
      invariant completed == item == |Datagrams(stream, calls)|
      invariant results == results0 + Datagrams(stream, calls)
      invariant calls == 0 || stream(calls - 1).Datagram?
      invariant calls <= ATTEMPTS * item
      invariant QuietBefore(stream, item, calls)
    {
      var res, to := ReceiveInto(stream, calls, buffers);
      calls := to;
      if res.Err? {
        if completed == 0 {
          return results, Err(res.errno), calls;
        }
        break;
      }
      results := results + [res];
      completed := completed + 1;
    }
    r := Ok(completed);
  }
}
