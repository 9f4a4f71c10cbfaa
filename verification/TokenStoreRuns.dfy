/** Which token the agent holds and sends, on every interleaving of its requests. */
module TokenStoreRuns {
  import opened TokenStore
  import opened Wrappers

  // ---------------------------------------------------------------------------------------
  // The newest token, by the history alone

  predicate Drops(answer: Answer) {
    RefreshGrant(answer).Err? && IsInvalidGrant(RefreshGrant(answer).error)
  }

  /** A success that can be used and that brings a new refresh token. */
  predicate Rotates(answer: Answer) {
    answer.Success? && answer.idToken.Some? && answer.refreshToken.Some?
  }

  /** The event says which refresh token, if any, is good for the issuer from now on. */
  predicate Settles(e: Event, issuer: Issuer) {
    || (e.LoggedIn? && e.issuer == issuer)
    || (e.Answered? && e.issuer == issuer && (Drops(e.answer) || Rotates(e.answer)))
  }

  function Verdict(e: Event): Option<Token> {
    if e.LoggedIn? then e.tokens.refreshToken
    else if e.Answered? && Rotates(e.answer) then e.answer.refreshToken
    else None
  }

  /** What the last settling event before event `n` said. */
  function Newest(events: seq<Event>, n: nat, issuer: Issuer): Option<Token>
    requires n <= |events|
  {
    if n == 0 then None
    else if Settles(events[n - 1], issuer) then Verdict(events[n - 1])
    else Newest(events, n - 1, issuer)
  }

  function Held(s: Agent, issuer: Issuer): Option<Token> {
    if issuer in s.tokens then Some(s.tokens[issuer]) else None
  }

  lemma HeldStep(s: Agent, e: Event, issuer: Issuer)
    requires Enabled(s, e)
    ensures Held(Apply(s, e), issuer) == if Settles(e, issuer) then Verdict(e) else Held(s, issuer)
  {
  }

  /** On every run the store holds exactly the newest token of each issuer. */
  lemma {:induction false} StoreIsNewest(states: seq<Agent>, events: seq<Event>, n: nat, issuer: Issuer)
    requires IsRun(states, events) && n <= |events|
    ensures Held(states[n], issuer) == Newest(events, n, issuer)
  {
    if n > 0 {
      StoreIsNewest(states, events, n - 1, issuer);
      assert StepAt(states, events, n - 1);
      HeldStep(states[n - 1], events[n - 1], issuer);
    }
  }

  // ---------------------------------------------------------------------------------------
  // What a grant carries

  /** Request `id` began at event `b` with this token, the newest one then, and none began since. */
  ghost predicate BeganWith(events: seq<Event>, b: nat, n: nat, id: RequestId, issuer: Issuer, token: Token) {
    && b < n <= |events| && events[b] == Begin(id, issuer) && Newest(events, b, issuer) == Some(token)
    && forall k :: b < k < n && events[k].Begin? ==> events[k].id != id
  }

  lemma FlightStep(s: Agent, e: Event, id: RequestId)
    requires Enabled(s, e) && id in Apply(s, e).flights
    ensures var f := Apply(s, e).flights[id];
            if id in s.flights
            then s.flights[id].issuer == f.issuer && s.flights[id].token == f.token && !(e.Begin? && e.id == id)
            else e == Begin(id, f.issuer) && Held(s, f.issuer) == Some(f.token)
  {
  }

  lemma {:induction false} FlightBegan(states: seq<Agent>, events: seq<Event>, n: nat, id: RequestId) returns (b: nat)
    requires IsRun(states, events) && n <= |events| && id in states[n].flights
    ensures BeganWith(events, b, n, id, states[n].flights[id].issuer, states[n].flights[id].token)
  {
    if n > 0 {
      assert StepAt(states, events, n - 1);
      FlightStep(states[n - 1], events[n - 1], id);
      if id in states[n - 1].flights {
        b := FlightBegan(states, events, n - 1, id);
      } else {
        b := n - 1;
        StoreIsNewest(states, events, n - 1, states[n].flights[id].issuer);
      }
    }
  }

  ghost predicate QuietBetween(events: seq<Event>, b: nat, n: nat, issuer: Issuer) {
    b <= n <= |events| && forall k :: b <= k < n ==> !Settles(events[k], issuer)
  }

  lemma {:induction false} QuietKeepsNewest(events: seq<Event>, b: nat, n: nat, issuer: Issuer)
    requires QuietBetween(events, b, n, issuer)
    ensures Newest(events, n, issuer) == Newest(events, b, issuer)
    decreases n
  {
    if b < n {
      QuietKeepsNewest(events, b, n - 1, issuer);
    }
  }

  /** The last settling event from `b` on named this very token again. */
  ghost predicate NamedAgain(events: seq<Event>, b: nat, n: nat, issuer: Issuer, token: Token)
    requires n <= |events|
  {
    exists k :: b <= k < n && Settles(events[k], issuer) && Verdict(events[k]) == Some(token) &&
                forall j :: k < j < n ==> !Settles(events[j], issuer)
  }

  lemma {:induction false} StillNewestIff(events: seq<Event>, b: nat, n: nat, issuer: Issuer, token: Token)
    requires b <= n <= |events| && Newest(events, b, issuer) == Some(token)
    ensures Newest(events, n, issuer) == Some(token) <==>
            QuietBetween(events, b, n, issuer) || NamedAgain(events, b, n, issuer, token)
    decreases n
  {
    if b < n {
      StillNewestIff(events, b, n - 1, issuer, token);
      if !Settles(events[n - 1], issuer) {
        assert NamedAgain(events, b, n, issuer, token) <==> NamedAgain(events, b, n - 1, issuer, token);
      }
    }
  }

  /**
    A request under way carries the token that was newest when it began.  The store still
    holds that token, when the grant is sent and when an answer may drop it, exactly if
    nothing has settled that issuer since the request began, or what did last named it again.
   */
  lemma FlightIsNewestIff(states: seq<Agent>, events: seq<Event>, n: nat, id: RequestId) returns (b: nat)
    requires IsRun(states, events) && n <= |events| && id in states[n].flights
    ensures var Flight(issuer, token, _) := states[n].flights[id];
            && BeganWith(events, b, n, id, issuer, token)
            && (Held(states[n], issuer) == Some(token) <==>
                QuietBetween(events, b, n, issuer) || NamedAgain(events, b, n, issuer, token))
  {
    b := FlightBegan(states, events, n, id);
    var Flight(issuer, token, _) := states[n].flights[id];
    StoreIsNewest(states, events, n, issuer);
    StillNewestIff(events, b, n, issuer, token);
  }

  /**
    Two requests at once: one of them rotates the token, the other's refusal of the old
    token then drops the new one.
   */
  lemma StaleRefusalDropsNewer(issuer: Issuer, login: TokenResponse, rotated: Answer, refused: Answer)
    returns (states: seq<Agent>, events: seq<Event>)
    requires login.refreshToken.Some? && Rotates(rotated) && rotated.refreshToken != login.refreshToken
    requires Drops(refused)
    ensures IsRun(states, events) && |events| == 7 && events[6] == Answered(2, issuer, refused)
    ensures 2 in states[6].flights && Some(states[6].flights[2].token) == login.refreshToken
    ensures Held(states[6], issuer) == rotated.refreshToken && Held(states[7], issuer) == None
  {
    var granted := login.refreshToken.value;
    events := [LoggedIn(issuer, login), Begin(1, issuer), Begin(2, issuer), Send(1), Send(2),
               Answered(1, issuer, rotated), Answered(2, issuer, refused)];
    var stored := map[issuer := granted];
    var one, two := Flight(issuer, granted, false), Flight(issuer, granted, true);
    states := [INITIAL, Agent(stored, map[]), Agent(stored, map[1 := one]), Agent(stored, map[1 := one, 2 := one]),
               Agent(stored, map[1 := two, 2 := one]), Agent(stored, map[1 := two, 2 := two]),
               Agent(map[issuer := rotated.refreshToken.value], map[2 := two]), Agent(map[], map[])];
    forall n: nat | n < 7 ensures StepAt(states, events, n) {
    }
  }

  // ---------------------------------------------------------------------------------------
  // Requests one at a time

  /** No request begins and no login completes while a silent request is under way. */
  ghost predicate Serialized(states: seq<Agent>, events: seq<Event>) {
    && |states| == |events| + 1
    && forall n :: 0 <= n < |events| && (events[n].Begin? || events[n].LoggedIn?) ==> states[n].flights == map[]
  }

  ghost predicate OneFlight(s: Agent) {
    forall id, id' :: id in s.flights && id' in s.flights ==> id == id'
  }

  /** The one request under way carries what the store holds. */
  ghost predicate FlightHeld(s: Agent) {
    OneFlight(s) && forall id :: id in s.flights ==> Held(s, s.flights[id].issuer) == Some(s.flights[id].token)
  }

  lemma FlightHeldStep(s: Agent, e: Event)
    requires FlightHeld(s) && Enabled(s, e) && (e.Begin? || e.LoggedIn? ==> s.flights == map[])
    ensures FlightHeld(Apply(s, e))
    ensures e.Answered? ==> Apply(s, e).flights == map[]
  {
    if e.Answered? {
      assert forall id :: id in s.flights ==> id == e.id;
    }
  }

  lemma {:induction false} SerializedHolds(states: seq<Agent>, events: seq<Event>, n: nat)
    requires IsRun(states, events) && Serialized(states, events) && n <= |events|
    ensures FlightHeld(states[n])
  {
    if n > 0 {
      SerializedHolds(states, events, n - 1);
      assert StepAt(states, events, n - 1);
      FlightHeldStep(states[n - 1], events[n - 1]);
    }
  }

  /** One at a time, every grant carries the newest token. */
  lemma SerializedGrantIsNewest(states: seq<Agent>, events: seq<Event>, n: nat)
    requires IsRun(states, events) && Serialized(states, events) && n < |events| && events[n].Send?
    ensures events[n].id in states[n].flights
    ensures var f := states[n].flights[events[n].id]; Newest(events, n, f.issuer) == Some(f.token)
  {
    assert StepAt(states, events, n);
    SerializedHolds(states, events, n);
    StoreIsNewest(states, events, n, states[n].flights[events[n].id].issuer);
  }

  predicate Grants(e: Event, issuer: Issuer) {
    e.LoggedIn? && e.issuer == issuer && e.tokens.refreshToken.Some?
  }

  ghost predicate NoFlightFor(s: Agent, issuer: Issuer) {
    Held(s, issuer).None? && forall id :: id in s.flights ==> s.flights[id].issuer != issuer
  }

  lemma NoFlightStep(s: Agent, e: Event, issuer: Issuer)
    requires NoFlightFor(s, issuer) && Enabled(s, e) && !Grants(e, issuer)
    ensures NoFlightFor(Apply(s, e), issuer)
  {
  }

  /**
    One at a time: from an `invalid_grant` answer or a login without a refresh token until
    a login brings one, no request for the issuer gets as far as having a grant to send.
   */
  lemma {:induction false} NoGrantAfterDrop(states: seq<Agent>, events: seq<Event>, k: nat, n: nat, issuer: Issuer)
    requires IsRun(states, events) && Serialized(states, events) && k < n <= |events|
    requires Settles(events[k], issuer) && Verdict(events[k]).None?
    requires forall j :: k < j < n ==> !Grants(events[j], issuer)
    ensures NoFlightFor(states[n], issuer)
    decreases n
  {
    assert StepAt(states, events, n - 1);
    if k == n - 1 {
      SerializedHolds(states, events, k);
      FlightHeldStep(states[k], events[k]);
      HeldStep(states[k], events[k], issuer);
    } else {
      NoGrantAfterDrop(states, events, k, n - 1, issuer);
      NoFlightStep(states[n - 1], events[n - 1], issuer);
    }
  }

  // ---------------------------------------------------------------------------------------
  // Where the store and the provider part

  /** As the provider sees it, a success with a refresh token rotates even if unusable. */
  predicate Issues(e: Event, issuer: Issuer) {
    Settles(e, issuer) || (e.Answered? && e.issuer == issuer && Discarded(e.answer))
  }

  /** A success with a new refresh token and no `id_token`. */
  predicate Discarded(answer: Answer) {
    answer.Success? && answer.idToken.None? && answer.refreshToken.Some?
  }

  function IssuedVerdict(e: Event): Option<Token> {
    if e.Answered? && Discarded(e.answer) then e.answer.refreshToken else Verdict(e)
  }

  ghost predicate LastIssuing(events: seq<Event>, k: nat, n: nat, issuer: Issuer) {
    && k < n <= |events| && Issues(events[k], issuer)
    && forall j :: k < j < n ==> !Issues(events[j], issuer)
  }

  /**
    The agent holds the token that the provider issued last, unless that token came in a
    response without an `id_token`, which the agent discards whole, and is not the one the
    agent held already.
   */
  lemma HoldsLastIssuedIff(states: seq<Agent>, events: seq<Event>, k: nat, n: nat, issuer: Issuer)
    requires IsRun(states, events) && LastIssuing(events, k, n, issuer)
    ensures Held(states[n], issuer) == IssuedVerdict(events[k]) <==>
            (events[k].Answered? && Discarded(events[k].answer) ==>
               Newest(events, k, issuer) == events[k].answer.refreshToken)
  {
    StoreIsNewest(states, events, n, issuer);
    QuietKeepsNewest(events, k + 1, n, issuer);
    if events[k].Answered? && Discarded(events[k].answer) {
      InvalidGrantIff(events[k].answer);
    }
  }

  /** That does happen: the provider has moved on to another token, and the agent holds the old one. */
  lemma DiscardedRotationIsLost(issuer: Issuer, login: TokenResponse, answer: Answer)
    returns (states: seq<Agent>, events: seq<Event>)
    requires login.refreshToken.Some? && Discarded(answer) && answer.refreshToken != login.refreshToken
    ensures IsRun(states, events) && |events| == 4 && events[3] == Answered(0, issuer, answer)
    ensures LastIssuing(events, 3, 4, issuer) && IssuedVerdict(events[3]) == answer.refreshToken
    ensures Held(states[4], issuer) == login.refreshToken
  {
    var token := login.refreshToken.value;
    events := [LoggedIn(issuer, login), Begin(0, issuer), Send(0), Answered(0, issuer, answer)];
    var stored := map[issuer := token];
    states := [INITIAL, Agent(stored, map[]), Agent(stored, map[0 := Flight(issuer, token, false)]),
               Agent(stored, map[0 := Flight(issuer, token, true)]), Agent(stored, map[])];
    InvalidGrantIff(answer);
    forall n: nat | n < 4 ensures StepAt(states, events, n) {
    }
  }
}
