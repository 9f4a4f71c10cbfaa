/**
  The auth agent's refresh tokens, over every interleaving of the requests it serves.

  A silent request copies the stored token, looks up the provider, sends one grant and acts
  on the answer; other requests may run at each of its waits.  An interactive login acts on
  the store once, when it completes.
 */
module TokenStore {
  import opened Wrappers

  datatype Result<T> = Ok(value: T) | Err(error: Error)

  type Issuer = string
  type Token = string
  type RequestId = nat

  datatype Error =
    | NoRefreshToken
    | ProviderNotFound              // the issuer's URL or its discovery document
    | Http                          // no answer, or one whose body is not JSON
    | TokenExchange(text: string)

  datatype TokenResponse = TokenResponse(idToken: Token, refreshToken: Option<Token>)

  /** What the token endpoint sends back; `error` is the body's error field, if it is text. */
  datatype Answer =
    | NoAnswer
    | Refusal(status: string, error: Option<string>)
    | Success(idToken: Option<Token>, refreshToken: Option<Token>)

  // ---------------------------------------------------------------------------------------
  // Reading an answer

  const MAX_CODE: nat := 64
  const INVALID_GRANT := "invalid_grant"

  predicate InCode(c: char) {
    ' ' <= c <= '~' && c != '"' && c != '\\'
  }

  function Kept(raw: string): string {
    if raw == [] then []
    else Kept(raw[..|raw| - 1]) + if InCode(raw[|raw| - 1]) then [raw[|raw| - 1]] else []
  }

  function OauthErrorCode(raw: string): string {
    var kept := Kept(raw);
    if |kept| <= MAX_CODE then kept else kept[..MAX_CODE]
  }

  /** What section 5.2 of RFC 6749 allows in an error code: %x20-21 / %x23-5B / %x5D-7E. */
  predicate Allowed(c: char) {
    '\U{20}' <= c <= '\U{21}' || '\U{23}' <= c <= '\U{5B}' || '\U{5D}' <= c <= '\U{7E}'
  }

  function CountAllowed(raw: string): nat {
    if raw == [] then 0
    else CountAllowed(raw[..|raw| - 1]) + if Allowed(raw[|raw| - 1]) then 1 else 0
  }

  lemma {:induction false} KeptRanked(raw: string, i: nat)
    ensures |Kept(raw)| == CountAllowed(raw)
    ensures i < |raw| && Allowed(raw[i]) ==>
              var k := CountAllowed(raw[..i]);
              k < |Kept(raw)| && Kept(raw)[k] == raw[i]
  {
    if raw != [] {
      var n := |raw| - 1;
      KeptRanked(raw[..n], i);
      if i < n {
        assert raw[..n][..i] == raw[..i];
      }
    }
  }

  /**
    A cleaned code is the allowed characters of the text, in their order and up to the 64th:
    character `i` stands where the number of allowed ones before it says.
   */
  lemma CleanedCode(raw: string, i: nat)
    ensures var code := OauthErrorCode(raw);
            && |code| == (if CountAllowed(raw) <= 64 then CountAllowed(raw) else 64)
            && (i < |raw| && Allowed(raw[i]) && CountAllowed(raw[..i]) < 64 ==>
                  CountAllowed(raw[..i]) < |code| && code[CountAllowed(raw[..i])] == raw[i])
  {
    KeptRanked(raw, i);
  }

  function RefusalText(status: string, error: Option<string>): string {
    if error.Some? then "HTTP " + status + " (" + OauthErrorCode(error.value) + ")" else "HTTP " + status
  }

  function RefreshGrant(answer: Answer): Result<TokenResponse> {
    match answer
    case NoAnswer => Err(Http)
    case Refusal(status, error) => Err(TokenExchange(RefusalText(status, error)))
    case Success(idToken, refreshToken) =>
      if idToken.Some? then Ok(TokenResponse(idToken.value, refreshToken))
      else Err(TokenExchange("response has no `id_token`"))
  }

  predicate Contains(text: string, part: string) {
    exists i :: 0 <= i <= |text| && PartAt(text, part, i)
  }

  predicate PartAt(text: string, part: string, i: nat) {
    i + |part| <= |text| && text[i..i + |part|] == part
  }

  predicate IsInvalidGrant(error: Error) {
    error.TokenExchange? && Contains(error.text, Bracketed(INVALID_GRANT))
  }

  function Bracketed(word: string): string {
    ['('] + word + [')']
  }

  /** How a word can be read in brackets inside a bracketed code. */
  predicate Names(code: string, word: string) {
    || code == word
    || Contains(code, Bracketed(word))
    || word + [')'] <= code
    || EndsWith(code, ['('] + word)
  }

  predicate EndsWith(text: string, end: string) {
    |end| <= |text| && text[|text| - |end|..] == end
  }

  // Where a bracketed word can stand in a bracketed code: at its start, at its end, or inside.

  lemma AtStartIff(code: string, word: string)
    ensures PartAt(Bracketed(code), Bracketed(word), 0) <==> code == word || word + [')'] <= code
  {
    var text, n := Bracketed(code), |word|;
    if n <= |code| {
      assert text[0..n + 2][1..] == text[1..n + 2];
      assert text[1..n + 2] == if n == |code| then code + [')'] else code[..n + 1];
      assert Bracketed(word)[1..] == word + [')'] && Bracketed(word) == ['('] + (word + [')']);
      assert text[0..n + 2] == ['('] + text[1..n + 2];
      if n == |code| {
        assert (code + [')'])[..n] == code && (word + [')'])[..n] == word;
      } else {
        assert word + [')'] <= code <==> code[..n + 1] == word + [')'];
      }
    }
  }

  lemma AtEndIff(code: string, word: string)
    requires |word| < |code|
    ensures PartAt(Bracketed(code), Bracketed(word), |code| - |word|) <==> EndsWith(code, ['('] + word)
  {
    var i := |code| - |word|;
    var here := Bracketed(code)[i..i + |word| + 2];
    assert here == code[i - 1..] + [')'] && Bracketed(word) == (['('] + word) + [')'];
    assert here[..|word| + 1] == code[i - 1..] && Bracketed(word)[..|word| + 1] == ['('] + word;
  }

  lemma InsideIff(code: string, word: string, i: nat)
    requires 0 < i < |code| - |word|
    ensures PartAt(Bracketed(code), Bracketed(word), i) <==> PartAt(code, Bracketed(word), i - 1)
  {
    assert Bracketed(code)[i..i + |word| + 2] == code[i - 1..i + |word| + 1];
  }

  lemma FoundIsNamed(code: string, word: string, i: nat)
    requires PartAt(Bracketed(code), Bracketed(word), i)
    ensures Names(code, word)
  {
    if i == 0 {
      AtStartIff(code, word);
    } else if i < |code| - |word| {
      InsideIff(code, word, i);
    } else {
      AtEndIff(code, word);
    }
  }

  lemma NamedIsFound(code: string, word: string)
    requires Names(code, word)
    ensures Contains(Bracketed(code), Bracketed(word))
  {
    var text, part := Bracketed(code), Bracketed(word);
    if code == word || word + [')'] <= code {
      AtStartIff(code, word);
    } else if EndsWith(code, ['('] + word) {
      AtEndIff(code, word);
      assert PartAt(text, part, |code| - |word|);
    } else {
      var i :| 0 <= i <= |code| && PartAt(code, part, i);
      InsideIff(code, word, i + 1);
      assert PartAt(text, part, i + 1);
    }
  }

  lemma BracketedIff(code: string, word: string)
    ensures Contains(Bracketed(code), Bracketed(word)) <==> Names(code, word)
  {
    if Contains(Bracketed(code), Bracketed(word)) {
      var i :| 0 <= i <= |Bracketed(code)| && PartAt(Bracketed(code), Bracketed(word), i);
      FoundIsNamed(code, word, i);
    }
    if Names(code, word) {
      NamedIsFound(code, word);
    }
  }

  /** No bracketed word begins in front of the first bracket. */
  lemma BehindPlain(before: string, text: string, word: string)
    requires '(' !in before
    ensures Contains(before + text, Bracketed(word)) <==> Contains(text, Bracketed(word))
  {
    var whole, part := before + text, Bracketed(word);
    if Contains(whole, part) {
      var i :| 0 <= i <= |whole| && PartAt(whole, part, i);
      assert whole[i] == whole[i..i + |part|][0] == '(';
      assert text[i - |before|..i - |before| + |part|] == whole[i..i + |part|];
      assert PartAt(text, part, i - |before|);
    }
    if Contains(text, part) {
      var i :| 0 <= i <= |text| && PartAt(text, part, i);
      assert whole[|before| + i..|before| + i + |part|] == text[i..i + |part|];
      assert PartAt(whole, part, |before| + i);
    }
  }

  lemma CodeInText(status: string, code: string, word: string)
    requires '(' !in status
    ensures Contains("HTTP " + status + " (" + code + ")", Bracketed(word)) <==> Names(code, word)
  {
    var before := "HTTP " + status + " ";
    BehindPlain(before, Bracketed(code), word);
    BracketedIff(code, word);
    assert "HTTP " + status + " (" + code + ")" == before + Bracketed(code);
  }

  lemma PlainText(text: string, word: string)
    requires '(' !in text
    ensures !Contains(text, Bracketed(word))
  {
    assert text + [] == text;
    BehindPlain(text, [], word);
  }

  lemma NoIdTokenText(word: string)
    ensures !Contains("response has no `id_token`", Bracketed(word))
  {
    PlainText("response has no `id_token`", word);
  }

  predicate Revoked(answer: Answer) {
    answer.Refusal? && answer.error.Some? && Names(OauthErrorCode(answer.error.value), INVALID_GRANT)
  }

  /**
    The test on the error text holds of exactly the refusals whose cleaned code is
    `invalid_grant`, or reads so from or to one of its own parentheses.
   */
  lemma InvalidGrantIff(answer: Answer)
    requires answer.Refusal? ==> '(' !in answer.status
    ensures RefreshGrant(answer).Err? && IsInvalidGrant(RefreshGrant(answer).error) <==> Revoked(answer)
  {
    match answer {
      case NoAnswer =>
      case Success(_, _) =>
        NoIdTokenText(INVALID_GRANT);
      case Refusal(status, None) =>
        PlainText("HTTP " + status, INVALID_GRANT);
      case Refusal(status, Some(error)) =>
        CodeInText(status, OauthErrorCode(error), INVALID_GRANT);
    }
  }

  lemma {:induction false} KeptAll(raw: string)
    requires forall c :: c in raw ==> InCode(c)
    ensures Kept(raw) == raw
  {
    if raw != [] {
      var front, last := raw[..|raw| - 1], raw[|raw| - 1];
      assert InCode(last);
      KeptAll(front);
      assert raw == front + [last];
    }
  }

  /** Of the standard's codes, which need no cleaning, `invalid_grant` and no other is recognised. */
  lemma StandardCodeRecognisedIff(status: string, code: string)
    requires '(' !in status && '(' !in code && ')' !in code
    requires |code| <= MAX_CODE && forall c :: c in code ==> InCode(c)
    ensures IsInvalidGrant(RefreshGrant(Refusal(status, Some(code))).error) <==> code == INVALID_GRANT
  {
    KeptAll(code);
    InvalidGrantIff(Refusal(status, Some(code)));
    NamesPlain(code, INVALID_GRANT);
  }

  lemma NamesPlain(code: string, word: string)
    requires '(' !in code && ')' !in code
    ensures Names(code, word) <==> code == word
  {
    PlainText(code, word);
    BracketsShow(code, word);
  }

  lemma BracketsShow(code: string, word: string)
    ensures word + [')'] <= code ==> ')' in code
    ensures EndsWith(code, ['('] + word) ==> '(' in code
  {
    if word + [')'] <= code {
      assert code[|word|] == ')';
    }
    if EndsWith(code, ['('] + word) {
      assert code[|code| - |word| - 1] == code[|code| - |word| - 1..][0];
    }
  }

  /** A code that only mentions `invalid_grant` in parentheses is taken for it, behind any text. */
  lemma MentionTakenForCode(status: string, remark: string, word: string, code: string)
    requires word == INVALID_GRANT && code == remark + Bracketed(word)
    requires '(' !in status && |code| <= MAX_CODE && forall c :: c in code ==> InCode(c)
    ensures code != word && IsInvalidGrant(RefreshGrant(Refusal(status, Some(code))).error)
  {
    KeptAll(code);
    InvalidGrantIff(Refusal(status, Some(code)));
    assert PartAt(code, Bracketed(word), |remark|);
    assert |code| > |word|;
  }

  // ---------------------------------------------------------------------------------------
  // The agent's steps

  /** A silent request under way: the token it copied, and whether its grant is sent. */
  datatype Flight = Flight(issuer: Issuer, token: Token, sent: bool)

  datatype Agent = Agent(tokens: map<Issuer, Token>, flights: map<RequestId, Flight>)

  datatype Event =
    | Begin(id: RequestId, issuer: Issuer)
    | Abandon(id: RequestId)                                    // the provider was not found
    | Send(id: RequestId)
    | Answered(id: RequestId, issuer: Issuer, answer: Answer)
    | LoggedIn(issuer: Issuer, tokens: TokenResponse)

  predicate Enabled(s: Agent, e: Event) {
    match e
    case Begin(id, _) => id !in s.flights
    case Abandon(id) => id in s.flights && !s.flights[id].sent
    case Send(id) => id in s.flights && !s.flights[id].sent
    case Answered(id, issuer, _) => id in s.flights && s.flights[id].sent && s.flights[id].issuer == issuer
    case LoggedIn(_, _) => true
  }

  function Store(tokens: map<Issuer, Token>, issuer: Issuer, token: Option<Token>): map<Issuer, Token> {
    if token.Some? then tokens[issuer := token.value] else tokens - {issuer}
  }

  function Settled(tokens: map<Issuer, Token>, issuer: Issuer, answer: Answer): map<Issuer, Token> {
    match RefreshGrant(answer)
    case Ok(response) => if response.refreshToken.Some? then Store(tokens, issuer, response.refreshToken) else tokens
    case Err(error) => if IsInvalidGrant(error) then Store(tokens, issuer, None) else tokens
  }

  function Apply(s: Agent, e: Event): Agent
    requires Enabled(s, e)
  {
    match e
    case Begin(id, issuer) =>
      if issuer in s.tokens then s.(flights := s.flights[id := Flight(issuer, s.tokens[issuer], false)]) else s
    case Abandon(id) => s.(flights := s.flights - {id})
    case Send(id) => s.(flights := s.flights[id := s.flights[id].(sent := true)])
    case Answered(id, issuer, answer) => Agent(Settled(s.tokens, issuer, answer), s.flights - {id})
    case LoggedIn(issuer, tokens) => s.(tokens := Store(s.tokens, issuer, tokens.refreshToken))
  }

  const INITIAL := Agent(map[], map[])

  ghost predicate StepAt(states: seq<Agent>, events: seq<Event>, n: nat)
    requires n < |events| && |states| == |events| + 1
  {
    Enabled(states[n], events[n]) && states[n + 1] == Apply(states[n], events[n])
  }

  /** Any interleaving, from the empty store: `states[n]` is the agent before event `n`. */
  ghost predicate IsRun(states: seq<Agent>, events: seq<Event>) {
    && |states| == |events| + 1 && states[0] == INITIAL
    && forall n: nat :: n < |events| ==> StepAt(states, events, n)
  }

  // ---------------------------------------------------------------------------------------
  // One request from start to end

  ghost predicate RunsTo(s: Agent, events: seq<Event>, t: Agent)
    decreases |events|
  {
    if events == [] then s == t
    else Enabled(s, events[0]) && RunsTo(Apply(s, events[0]), events[1..], t)
  }

  /** The events of a silent request that no other request interrupts. */
  function SilentEvents(held: bool, found: bool, issuer: Issuer, answer: Answer): seq<Event> {
    if !held then [Begin(0, issuer)]
    else if !found then [Begin(0, issuer), Abandon(0)]
    else [Begin(0, issuer), Send(0), Answered(0, issuer, answer)]
  }

  lemma SilentRun(tokens: map<Issuer, Token>, found: bool, issuer: Issuer, answer: Answer)
    requires issuer in tokens
    ensures RunsTo(Agent(tokens, map[]), SilentEvents(true, found, issuer, answer),
                   Agent(if found then Settled(tokens, issuer, answer) else tokens, map[]))
  {
    var begun := Agent(tokens, map[0 := Flight(issuer, tokens[issuer], false)]);
    var events := SilentEvents(true, found, issuer, answer);
    if found {
      var sent := Agent(tokens, map[0 := Flight(issuer, tokens[issuer], true)]);
      var done := Agent(Settled(tokens, issuer, answer), map[]);
      var last := [Answered(0, issuer, answer)];
      assert sent.flights - {0} == map[];
      assert last[1..] == [] && RunsTo(sent, last, done);
      assert begun.flights[0 := sent.flights[0]] == sent.flights;
      assert ([Send(0)] + last)[1..] == last && RunsTo(begun, [Send(0)] + last, done);
      assert events[1..] == [Send(0)] + last;
    } else {
      assert begun.flights - {0} == map[];
      assert [Abandon(0)][1..] == [] && RunsTo(begun, [Abandon(0)], Agent(tokens, map[]));
      assert events[1..] == [Abandon(0)];
    }
  }

  function IdToken(r: Result<TokenResponse>): Result<Token> {
    match r
    case Ok(response) => Ok(response.idToken)
    case Err(error) => Err(error)
  }

  class CliAuthAgent {
    var refreshTokens: map<Issuer, Token>

    constructor ()
      ensures Agent(refreshTokens, map[]) == INITIAL
    {
      refreshTokens := map[];
    }

    method RefreshCredential(issuer: Issuer, found: bool, answer: Answer)
      returns (r: Result<Token>, sent: Option<Token>)
      modifies this
      ensures var held := old(issuer in refreshTokens);
              && RunsTo(Agent(old(refreshTokens), map[]), SilentEvents(held, found, issuer, answer),
                        Agent(refreshTokens, map[]))
              && sent == (if held && found then Some(old(refreshTokens)[issuer]) else None)
              && r == if !held then Err(NoRefreshToken)
                      else if !found then Err(ProviderNotFound)
                      else IdToken(RefreshGrant(answer))
      ensures r.Ok? <==> old(issuer in refreshTokens) && found && answer.Success? && answer.idToken.Some?
      ensures r.Ok? ==> answer.idToken == Some(r.value)
    {
      sent := None;
      if issuer !in refreshTokens {
        return Err(NoRefreshToken), None;
      }
      var refreshToken := refreshTokens[issuer];
      SilentRun(refreshTokens, found, issuer, answer);
      if !found {
        return Err(ProviderNotFound), None;
      }
      sent := Some(refreshToken);
      match RefreshGrant(answer) {
        case Ok(tokens) =>
          if tokens.refreshToken.Some? {
            refreshTokens := refreshTokens[issuer := tokens.refreshToken.value];
          }
          r := Ok(tokens.idToken);
        case Err(error) =>
          if IsInvalidGrant(error) {
            refreshTokens := refreshTokens - {issuer};
          }
          r := Err(error);
      }
    }

    /** The interactive arm, after the login flow. */
    method KeepLogin(issuer: Issuer, login: Result<TokenResponse>) returns (r: Result<Token>)
      modifies this
      ensures RunsTo(Agent(old(refreshTokens), map[]), if login.Ok? then [LoggedIn(issuer, login.value)] else [],
                     Agent(refreshTokens, map[]))
      ensures login.Ok? ==> r == Ok(login.value.idToken)
      ensures login.Err? ==> r == Err(login.error)
    {
      match login {
        case Ok(tokens) =>
          if tokens.refreshToken.Some? {
            refreshTokens := refreshTokens[issuer := tokens.refreshToken.value];
          } else {
            refreshTokens := refreshTokens - {issuer};
          }
          r := Ok(tokens.idToken);
        case Err(error) =>
          r := Err(error);
      }
    }
  }
}
