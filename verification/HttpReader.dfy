/**
  Reading one HTTP/1.1 request off a TCP stream, whatever the sizes of the reads.

  A stream is the list of what its reads return, and then the end of the stream or an I/O
  error.  What the head means is left to an arbitrary `parse`, applied to the head's bytes.
 */
module HttpReader {
  import opened NetDefs
  import opened Wrappers

  datatype Head = Head(verb: Bytes, target: Bytes, contentLength: nat) | BadHead(error: string)

  datatype End = Closed | Broken

  datatype Outcome =
    | Request(verb: Bytes, target: Bytes, body: Bytes)
    | Malformed(error: string)
    | TooLarge
    | ClosedMidRequest
    | IoError

  const CHUNK: nat := 1024
  const HEAD_LIMIT: nat := 64 * 1024
  const TERMINATOR: Bytes := [13, 10, 13, 10]

  // ---------------------------------------------------------------------------------------
  // The first occurrence

  predicate OccursAt(haystack: Bytes, needle: Bytes, i: nat) {
    i + |needle| <= |haystack| && haystack[i..i + |needle|] == needle
  }

  function FindSubslice(haystack: Bytes, needle: Bytes): (r: Option<nat>)
    requires needle != []
    ensures r.Some? ==> OccursAt(haystack, needle, r.value)
    ensures forall i: nat :: OccursAt(haystack, needle, i) ==> r.Some? && r.value <= i
  {
    FindFrom(haystack, needle, 0)
  }

  function FindFrom(haystack: Bytes, needle: Bytes, from: nat): (r: Option<nat>)
    requires needle != []
    ensures r.Some? ==> r.value >= from && OccursAt(haystack, needle, r.value)
    ensures forall i: nat :: i >= from && OccursAt(haystack, needle, i) ==> r.Some? && r.value <= i
    decreases |haystack| - from
  {
    if from + |needle| > |haystack| then None
    else if OccursAt(haystack, needle, from) then Some(from)
    else FindFrom(haystack, needle, from + 1)
  }

  /** Where the head of a request ends. */
  function HeadEnd(s: Bytes): Option<nat> {
    var p := FindSubslice(s, TERMINATOR);
    if p.Some? then Some(p.value + 4) else None
  }

  lemma HeadEndBounds(s: Bytes)
    ensures HeadEnd(s).Some? ==> 4 <= HeadEnd(s).value <= |s|
  {
  }

  /** A prefix of the stream shows the head's end exactly if it reaches that far. */
  lemma HeadEndOfPrefix(s: Bytes, q: nat)
    requires q <= |s|
    ensures HeadEnd(s[..q]) == if HeadEnd(s).Some? && HeadEnd(s).value <= q then HeadEnd(s) else None
  {
    forall i: nat ensures OccursAt(s[..q], TERMINATOR, i) <==> OccursAt(s, TERMINATOR, i) && i + 4 <= q {
      if i + 4 <= q {
        assert s[..q][i..i + 4] == s[i..i + 4];
      }
    }
    var whole, part := FindSubslice(s, TERMINATOR), FindSubslice(s[..q], TERMINATOR);
    assert part.Some? ==> OccursAt(s, TERMINATOR, part.value);
    assert whole.Some? && whole.value + 4 <= q ==> OccursAt(s[..q], TERMINATOR, whole.value);
  }

  // ---------------------------------------------------------------------------------------
  // Streams

  function Concat(chunks: seq<Bytes>): Bytes {
    if chunks == [] then [] else Concat(chunks[..|chunks| - 1]) + chunks[|chunks| - 1]
  }

  /** What reads into a 1024-byte buffer can return. */
  predicate Reads(chunks: seq<Bytes>) {
    forall i :: 0 <= i < |chunks| ==> 0 < |chunks[i]| <= CHUNK
  }

  predicate IsChunking(chunks: seq<Bytes>, s: Bytes) {
    Reads(chunks) && Concat(chunks) == s
  }

  /** The bytes of the first `i` reads. */
  function Upto(chunks: seq<Bytes>, i: nat): Bytes
    requires i <= |chunks|
  {
    Concat(chunks[..i])
  }

  lemma UptoStep(chunks: seq<Bytes>, i: nat)
    requires i < |chunks|
    ensures Upto(chunks, i + 1) == Upto(chunks, i) + chunks[i]
  {
    assert chunks[..i + 1][..i] == chunks[..i];
  }

  lemma {:induction false} UptoIsPrefix(chunks: seq<Bytes>, i: nat)
    requires i <= |chunks|
    ensures |Upto(chunks, i)| <= |Concat(chunks)| && Upto(chunks, i) == Concat(chunks)[..|Upto(chunks, i)|]
    decreases |chunks| - i
  {
    if i == |chunks| {
      assert chunks[..i] == chunks;
    } else {
      UptoIsPrefix(chunks, i + 1);
      UptoStep(chunks, i);
    }
  }

  // ---------------------------------------------------------------------------------------
  // The request in the stream, and the reader

  /** The request that a stream holds, by its bytes alone. */
  function RequestIn(s: Bytes, end: End, parse: Bytes -> Head): Outcome {
    var h := HeadEnd(s);
    if h.None? then (if end.Closed? then ClosedMidRequest else IoError)
    else
      HeadEndBounds(s);
      match parse(s[..h.value])
      case BadHead(error) => Malformed(error)
      case Head(verb, target, n) =>
        if h.value + n <= |s| then Request(verb, target, s[h.value..h.value + n])
        else if end.Closed? then Request(verb, target, s[h.value..])
        else IoError
  }

  /** CR LF CR LF at offset `i`. */
  predicate BlankLineAt(s: Bytes, i: nat) {
    i + 4 <= |s| && s[i] == 13 && s[i + 1] == 10 && s[i + 2] == 13 && s[i + 3] == 10
  }

  /** The first blank line of the stream ends at `h`. */
  ghost predicate HeadEndsAt(s: Bytes, h: nat) {
    h >= 4 && BlankLineAt(s, h - 4) && forall i: nat :: BlankLineAt(s, i) ==> i >= h - 4
  }

  lemma BlankLineIff(s: Bytes, i: nat)
    ensures OccursAt(s, TERMINATOR, i) <==> BlankLineAt(s, i)
  {
    if i + 4 <= |s| {
      assert s[i..i + 4] == [s[i], s[i + 1], s[i + 2], s[i + 3]];
    }
  }

  lemma HeadEndIff(s: Bytes, h: nat)
    ensures HeadEnd(s) == Some(h) <==> HeadEndsAt(s, h)
  {
    forall i: nat ensures OccursAt(s, TERMINATOR, i) <==> BlankLineAt(s, i) {
      BlankLineIff(s, i);
    }
    var first := FindSubslice(s, TERMINATOR);
    if HeadEndsAt(s, h) {
      assert OccursAt(s, TERMINATOR, h - 4);
      assert BlankLineAt(s, first.value);
    }
    if first.Some? {
      assert BlankLineAt(s, first.value);
    }
  }

  /** The request has the verb and target of its head, and the bytes behind it as its body. */
  ghost predicate RequestAt(s: Bytes, end: End, parse: Bytes -> Head, r: Outcome, h: nat, n: nat)
    requires r.Request?
  {
    && HeadEndsAt(s, h) && parse(s[..h]) == Head(r.verb, r.target, n)
    && (if h + n <= |s| then r.body == s[h..h + n] else end.Closed? && r.body == s[h..])
  }

  predicate BodyCut(s: Bytes, head: Head, h: nat) {
    head.Head? && h + head.contentLength > |s|
  }

  /** What a stream holds, without reference to how it is looked for. */
  lemma RequestInIff(s: Bytes, end: End, parse: Bytes -> Head)
    ensures var r := RequestIn(s, end, parse);
            && (r.Request? ==> exists h: nat, n: nat :: RequestAt(s, end, parse, r, h, n))
            && (r.Malformed? ==> exists h: nat :: HeadEndsAt(s, h) && parse(s[..h]) == BadHead(r.error))
            && (r.ClosedMidRequest? <==> end.Closed? && forall h: nat :: !HeadEndsAt(s, h))
            && (r.IoError? <==> end.Broken? && forall h: nat :: HeadEndsAt(s, h) ==> BodyCut(s, parse(s[..h]), h))
            && !r.TooLarge?
  {
    forall h: nat ensures HeadEnd(s) == Some(h) <==> HeadEndsAt(s, h) {
      HeadEndIff(s, h);
    }
    var r := RequestIn(s, end, parse);
    if HeadEnd(s).Some? {
      var h := HeadEnd(s).value;
      assert HeadEndsAt(s, h);
      if r.Request? {
        assert RequestAt(s, end, parse, r, h, parse(s[..h]).contentLength);
      }
    }
  }

  /** After `i` reads the buffer is over the limit and holds no whole head. */
  predicate OverLimit(chunks: seq<Bytes>, i: nat) {
    i <= |chunks| && |Upto(chunks, i)| > HEAD_LIMIT && HeadEnd(Upto(chunks, i)).None?
  }

  ghost predicate Overruns(chunks: seq<Bytes>) {
    exists i: nat :: OverLimit(chunks, i)
  }

  /** What the reader makes of a stream delivered in these chunks. */
  ghost function ReadOutcome(chunks: seq<Bytes>, end: End, parse: Bytes -> Head): Outcome {
    if Overruns(chunks) then TooLarge else RequestIn(Concat(chunks), end, parse)
  }

  method ReadHttpRequest(chunks: seq<Bytes>, end: End, parse: Bytes -> Head) returns (r: Outcome)
    ensures r == ReadOutcome(chunks, end, parse)
  {
    var failure, i, buf := ReadHead(chunks, end);
    if failure.Some? {
      return failure.value;
    }
    HeadSettled(chunks, i);
    var headEnd := HeadEnd(buf).value;
    match parse(buf[..headEnd]) {
      case BadHead(error) => r := Malformed(error);
      case Head(verb, target, n) =>
        var body := ReadBody(chunks, i, buf[headEnd..], headEnd, end, n);
        r := if body.Some? then Request(verb, target, body.value) else IoError;
    }
  }

  /** Reads until the buffer holds a whole head, or fails. */
  method ReadHead(chunks: seq<Bytes>, end: End) returns (failure: Option<Outcome>, i: nat, buf: Bytes)
    ensures i <= |chunks| && buf == Upto(chunks, i)
    ensures failure.None? ==> HeadEnd(buf).Some? && forall k: nat :: k < i ==> !OverLimit(chunks, k)
    ensures failure.Some? && Overruns(chunks) ==> failure.value == TooLarge
    ensures failure.Some? && !Overruns(chunks) ==>
              HeadEnd(Concat(chunks)).None? && failure.value == if end.Closed? then ClosedMidRequest else IoError
  {
    buf, i := [], 0;
    while HeadEnd(buf).None?
      invariant i <= |chunks| && buf == Upto(chunks, i)
      invariant forall k: nat :: k < i ==> !OverLimit(chunks, k)
      decreases |chunks| - i
    {
      if |buf| > HEAD_LIMIT {
        assert OverLimit(chunks, i);
        return Some(TooLarge), i, buf;
      }
      if i == |chunks| {
        assert chunks[..i] == chunks;
        return Some(if end.Closed? then ClosedMidRequest else IoError), i, buf;
      }
      UptoStep(chunks, i);
      buf := buf + chunks[i];
      i := i + 1;
    }
    failure := None;
  }

  /** Once a head is found with the limit kept so far, the chunks never overrun. */
  lemma HeadSettled(chunks: seq<Bytes>, i: nat)
    requires i <= |chunks| && HeadEnd(Upto(chunks, i)).Some?
    requires forall k: nat :: k < i ==> !OverLimit(chunks, k)
    ensures !Overruns(chunks) && HeadEnd(Concat(chunks)) == HeadEnd(Upto(chunks, i))
    ensures HeadEnd(Upto(chunks, i)).value <= |Upto(chunks, i)|
    ensures Upto(chunks, i)[..HeadEnd(Upto(chunks, i)).value] == Concat(chunks)[..HeadEnd(Upto(chunks, i)).value]
  {
    var s := Concat(chunks);
    UptoIsPrefix(chunks, i);
    HeadEndOfPrefix(s, |Upto(chunks, i)|);
    forall k: nat | i <= k <= |chunks| ensures !OverLimit(chunks, k) {
      HeadStaysFound(chunks, i, k);
    }
  }

  lemma HeadStaysFound(chunks: seq<Bytes>, i: nat, k: nat)
    requires i <= k <= |chunks| && HeadEnd(Upto(chunks, i)).Some?
    ensures HeadEnd(Upto(chunks, k)).Some?
  {
    var s := Concat(chunks);
    UptoIsPrefix(chunks, i);
    HeadEndOfPrefix(s, |Upto(chunks, i)|);
    UptoIsPrefix(chunks, k);
    UptoGrows(chunks, i, k);
    HeadEndOfPrefix(s, |Upto(chunks, k)|);
  }

  lemma {:induction false} UptoGrows(chunks: seq<Bytes>, i: nat, k: nat)
    requires i <= k <= |chunks|
    ensures |Upto(chunks, i)| <= |Upto(chunks, k)|
    decreases k
  {
    if i < k {
      UptoGrows(chunks, i, k - 1);
      UptoStep(chunks, k - 1);
    }
  }

  /** The body: `start` of it is in the buffer already, the rest is read from chunk `from` on. */
  method ReadBody(chunks: seq<Bytes>, from: nat, start: Bytes, h: nat, end: End, contentLength: nat)
    returns (r: Option<Bytes>)
    requires from <= |chunks| && h <= |Upto(chunks, from)| && start == Upto(chunks, from)[h..]
    ensures h <= |Concat(chunks)|
    ensures var s := Concat(chunks);
            r == if h + contentLength <= |s| then Some(s[h..h + contentLength])
                 else if end.Closed? then Some(s[h..])
                 else None
  {
    var i, body := from, start;
    UptoIsPrefix(chunks, from);
    while |body| < contentLength
      invariant i <= |chunks| && h <= |Upto(chunks, i)| && body == Upto(chunks, i)[h..]
      decreases |chunks| - i
    {
      if i == |chunks| {
        assert chunks[..i] == chunks;
        return if end.Closed? then Some(body) else None;
      }
      UptoStep(chunks, i);
      body := body + chunks[i];
      i := i + 1;
    }
    UptoIsPrefix(chunks, i);
    assert body[..contentLength] == Concat(chunks)[h..h + contentLength];
    return Some(body[..contentLength]);
  }

  // ---------------------------------------------------------------------------------------
  // The sizes of the reads

  /** The head ends in the stretch where the limit may or may not be noticed in time. */
  predicate Straddles(s: Bytes) {
    HeadEnd(s).Some? && HEAD_LIMIT + 1 < HeadEnd(s).value <= HEAD_LIMIT + CHUNK
  }

  /** The head ends too late, or not at all, for any sizes of the reads. */
  predicate HeadTooLong(s: Bytes) {
    if HeadEnd(s).Some? then HeadEnd(s).value > HEAD_LIMIT + CHUNK else |s| > HEAD_LIMIT
  }

  /** The first read that takes the buffer over the limit takes it at most one chunk over. */
  lemma {:induction false} CrossesLimit(chunks: seq<Bytes>, n: nat)
    requires Reads(chunks) && n <= |chunks| && |Upto(chunks, n)| > HEAD_LIMIT
    ensures exists i: nat :: i <= n && HEAD_LIMIT < |Upto(chunks, i)| <= HEAD_LIMIT + CHUNK
  {
    if n > 0 {
      UptoStep(chunks, n - 1);
      if |Upto(chunks, n - 1)| > HEAD_LIMIT {
        CrossesLimit(chunks, n - 1);
      } else {
        assert |Upto(chunks, n)| <= HEAD_LIMIT + CHUNK;
      }
    }
  }

  lemma HeadInPrefix(chunks: seq<Bytes>, i: nat)
    requires i <= |chunks|
    ensures var s, q := Concat(chunks), |Upto(chunks, i)|;
            OverLimit(chunks, i) <==> q > HEAD_LIMIT && (HeadEnd(s).Some? ==> q < HeadEnd(s).value)
  {
    UptoIsPrefix(chunks, i);
    HeadEndOfPrefix(Concat(chunks), |Upto(chunks, i)|);
  }

  /** Outside the straddling stretch the stream's bytes alone decide the outcome. */
  lemma OutcomeByBytes(chunks: seq<Bytes>, s: Bytes, end: End, parse: Bytes -> Head)
    requires IsChunking(chunks, s) && !Straddles(s)
    ensures ReadOutcome(chunks, end, parse) == if HeadTooLong(s) then TooLarge else RequestIn(s, end, parse)
  {
    var all := |chunks|;
    assert chunks[..all] == chunks;
    HeadEndBounds(s);
    if HeadTooLong(s) {
      CrossesLimit(chunks, all);
      var i: nat :| i <= all && HEAD_LIMIT < |Upto(chunks, i)| <= HEAD_LIMIT + CHUNK;
      HeadInPrefix(chunks, i);
      assert OverLimit(chunks, i);
    } else {
      forall i: nat | i <= all ensures !OverLimit(chunks, i) {
        HeadInPrefix(chunks, i);
        UptoIsPrefix(chunks, i);
      }
    }
  }

  function Singly(s: Bytes): seq<Bytes> {
    seq(|s|, i requires 0 <= i < |s| => [s[i]])
  }

  lemma {:induction false} SinglyConcat(s: Bytes)
    ensures Concat(Singly(s)) == s
  {
    if s != [] {
      var n := |s| - 1;
      SinglyConcat(s[..n]);
      assert Singly(s)[..n] == Singly(s[..n]);
    }
  }

  lemma {:induction false} ConcatAppend(a: seq<Bytes>, b: seq<Bytes>)
    ensures Concat(a + b) == Concat(a) + Concat(b)
    decreases |b|
  {
    if b == [] {
      assert a + b == a;
    } else {
      var n := |b| - 1;
      ConcatAppend(a, b[..n]);
      ConcatSnoc(a + b[..n], b[n]);
      assert a + b == (a + b[..n]) + [b[n]];
      assert Concat(a) + Concat(b) == (Concat(a) + Concat(b[..n])) + b[n];
    }
  }

  lemma ConcatSnoc(chunks: seq<Bytes>, chunk: Bytes)
    ensures Concat(chunks + [chunk]) == Concat(chunks) + chunk
  {
    assert (chunks + [chunk])[..|chunks|] == chunks;
  }

  /** Single bytes up to `p`, then one read up to `m`, then single bytes. */
  function Leap(s: Bytes, p: nat, m: nat): seq<Bytes>
    requires p <= m <= |s|
  {
    Singly(s[..p]) + [s[p..m]] + Singly(s[m..])
  }

  lemma LeapConcat(s: Bytes, p: nat, m: nat)
    requires p <= m <= |s|
    ensures Concat(Leap(s, p, m)) == s
  {
    var low, high := Singly(s[..p]), Singly(s[m..]);
    SinglyConcat(s[..p]);
    SinglyConcat(s[m..]);
    ConcatSnoc(low, s[p..m]);
    ConcatAppend(low + [s[p..m]], high);
    ThreeParts(s, p, m);
  }

  lemma ThreeParts(s: Bytes, p: nat, m: nat)
    requires p <= m <= |s|
    ensures s[..p] + s[p..m] + s[m..] == s
  {
  }

  lemma LeapReads(s: Bytes, p: nat, m: nat)
    requires p < m <= |s| && m <= p + CHUNK
    ensures Reads(Leap(s, p, m))
  {
    assert forall i :: 0 <= i < p ==> |Singly(s[..p])[i]| == 1;
    assert forall i :: 0 <= i < |s| - m ==> |Singly(s[m..])[i]| == 1;
  }

  /** One full read right at the limit. */
  function LeapOverLimit(s: Bytes): seq<Bytes>
    requires |s| > HEAD_LIMIT
  {
    Leap(s, HEAD_LIMIT, if |s| < HEAD_LIMIT + CHUNK then |s| else HEAD_LIMIT + CHUNK)
  }

  lemma LeapIsChunking(s: Bytes)
    requires |s| > HEAD_LIMIT
    ensures IsChunking(LeapOverLimit(s), s)
  {
    var m := if |s| < HEAD_LIMIT + CHUNK then |s| else HEAD_LIMIT + CHUNK;
    LeapConcat(s, HEAD_LIMIT, m);
    LeapReads(s, HEAD_LIMIT, m);
  }

  lemma LeapKeepsLimit(s: Bytes)
    requires Straddles(s)
    ensures |s| > HEAD_LIMIT && !Overruns(LeapOverLimit(s))
  {
    HeadEndBounds(s);
    LeapIsChunking(s);
    var chunks := LeapOverLimit(s);
    var low := Singly(s[..HEAD_LIMIT]);
    SinglyConcat(s[..HEAD_LIMIT]);
    assert chunks[..HEAD_LIMIT] == low;
    UptoStep(chunks, HEAD_LIMIT);
    forall i: nat | i <= |chunks| ensures !OverLimit(chunks, i) {
      HeadInPrefix(chunks, i);
      if i <= HEAD_LIMIT {
        UptoGrows(chunks, i, HEAD_LIMIT);
      } else {
        UptoGrows(chunks, HEAD_LIMIT + 1, i);
      }
    }
  }

  lemma SinglyOverruns(s: Bytes)
    requires Straddles(s)
    ensures IsChunking(Singly(s), s) && Overruns(Singly(s))
  {
    HeadEndBounds(s);
    SinglyConcat(s);
    var i := HEAD_LIMIT + 1;
    SinglyConcat(s[..i]);
    assert Singly(s)[..i] == Singly(s[..i]);
    HeadInPrefix(Singly(s), i);
    assert OverLimit(Singly(s), i);
  }

  ghost predicate ChunkingIndependent(s: Bytes, end: End, parse: Bytes -> Head) {
    forall a, b :: IsChunking(a, s) && IsChunking(b, s) ==> ReadOutcome(a, end, parse) == ReadOutcome(b, end, parse)
  }

  /**
    The sizes of the reads never matter, except when the head ends 2 to 1024 bytes past the
    64 KiB limit: then some sizes give the request and others an error.
   */
  lemma ChunkingIndependentIff(s: Bytes, end: End, parse: Bytes -> Head)
    ensures ChunkingIndependent(s, end, parse) <==> !Straddles(s)
  {
    if Straddles(s) {
      LeapKeepsLimit(s);
      LeapIsChunking(s);
      SinglyOverruns(s);
      var a, b := LeapOverLimit(s), Singly(s);
      assert ReadOutcome(a, end, parse) != TooLarge == ReadOutcome(b, end, parse);
    } else {
      forall a, b | IsChunking(a, s) && IsChunking(b, s)
        ensures ReadOutcome(a, end, parse) == ReadOutcome(b, end, parse)
      {
        OutcomeByBytes(a, s, end, parse);
        OutcomeByBytes(b, s, end, parse);
      }
    }
  }

  /** There are such streams: a head one byte too long for single bytes at the limit. */
  lemma StraddlingStream(s: Bytes, limit: nat)
    requires limit == HEAD_LIMIT && s == Zeros(limit - 2) + TERMINATOR
    ensures Straddles(s)
  {
    var p := limit - 2;
    assert s[p..p + 4] == TERMINATOR;
    assert OccursAt(s, TERMINATOR, p);
    forall i: nat | OccursAt(s, TERMINATOR, i) ensures i == p {
      assert s[i] == s[i..i + 4][0];
    }
  }
}
