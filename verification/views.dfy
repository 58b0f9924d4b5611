/**
 * The access-control layer of views.py: the `ratelimit` decorator's wrapper,
 * the `after_request` hook that copies the limit state into `X-RateLimit-*`
 * headers, and the `verify_password` callback of the basic-auth extension.
 */
module Views {

  import opened Wrappers
  import opened Decimal
  import opened RateLimiting
  import opened FlaskContext

  const TOO_MANY_REQUESTS := 429

  /** The JSON body of `on_over_limit`. */
  const OVER_LIMIT_BODY: map<string, string> := map["data" := "You hit the rate limit", "error" := "429"]

  const REMAINING_HEADER := "X-RateLimit-Remaining"
  const LIMIT_HEADER := "X-RateLimit-Limit"
  const RESET_HEADER := "X-RateLimit-Reset"

  /** `on_over_limit`: the default handler, a 429 response whatever the limit state. */
  method OnOverLimit(rl: RateLimit) returns (resp: Response)
    ensures fresh(resp)
    ensures resp.status == TOO_MANY_REQUESTS && resp.body == OVER_LIMIT_BODY && resp.headers == []
  {
    resp := new Response(TOO_MANY_REQUESTS, OVER_LIMIT_BODY);
  }

  /**
   * `rate_limited`, the function `ratelimit(limit, per, send_x_headers, over_limit)`
   * wraps around a view. The charge is made and recorded in `g` before the limit is
   * looked at; an over-limit request gets the handler's 429 response and the view is
   * not called (`hasOverLimitHandler` is false when `over_limit=None`). `view` is the
   * response the wrapped view would return.
   */
  method RateLimited(redis: CounterStore, g: RequestContext, endpoint: string, client: string,
                     limit: int, per: int, sendXHeaders: bool, hasOverLimitHandler: bool, now: int,
                     view: Response)
    returns (resp: Response, viewCalled: bool)
    requires per != 0
    modifies redis, g
    ensures var charged := Charge(old(redis.State()), KeyPrefix(endpoint, client), limit, per, sendXHeaders, now);
            && redis.State() == charged.1
            && g.viewRateLimit == Some(charged.0)
            && g.user == old(g.user)
            && (viewCalled <==> !(hasOverLimitHandler && charged.0.OverLimit()))
    ensures viewCalled ==> resp == view
    ensures !viewCalled ==> fresh(resp) && resp.status == TOO_MANY_REQUESTS && resp.body == OVER_LIMIT_BODY
                            && resp.headers == []
  {
    var key := KeyPrefix(endpoint, client);
    var rlimit := NewRateLimit(redis, key, limit, per, sendXHeaders, now);
    g.viewRateLimit := Some(rlimit);
    if hasOverLimitHandler && rlimit.OverLimit() {
      resp := OnOverLimit(rlimit);
      viewCalled := false;
      return;
    }
    resp, viewCalled := view, true;
  }

  /**
   * The three headers `inject_x_rate_headers` adds, in order, with `str()` values:
   * each value reads back as remaining, limit and reset.
   */
  function XRateHeaders(rl: RateLimit): (h: seq<Header>)
    ensures |h| == 3
    ensures h[0].0 == REMAINING_HEADER && h[1].0 == LIMIT_HEADER && h[2].0 == RESET_HEADER
    ensures ParseInt(h[0].1) == Some(rl.Remaining())
    ensures ParseInt(h[1].1) == Some(rl.limit)
    ensures ParseInt(h[2].1) == Some(rl.reset)
  {
    ParseIntToString(rl.Remaining());
    ParseIntToString(rl.limit);
    ParseIntToString(rl.reset);
    [(REMAINING_HEADER, IntToString(rl.Remaining())),
     (LIMIT_HEADER, IntToString(rl.limit)),
     (RESET_HEADER, IntToString(rl.reset))]
  }

  /** `inject_x_rate_headers`: runs after every request and extends the response in place. */
  method InjectXRateHeaders(g: RequestContext, response: Response) returns (r: Response)
    modifies response
    ensures r == response
    ensures response.status == old(response.status) && response.body == old(response.body)
    ensures response.headers
         == if g.viewRateLimit.Some? && g.viewRateLimit.value.sendXHeaders
            then old(response.headers) + XRateHeaders(g.viewRateLimit.value)
            else old(response.headers)
  {
    var limit := g.viewRateLimit;
    if limit.Some? && limit.value.sendXHeaders {
      var rl := limit.value;
      response.AddHeader(REMAINING_HEADER, IntToString(rl.Remaining()));
      response.AddHeader(LIMIT_HEADER, IntToString(rl.limit));
      response.AddHeader(RESET_HEADER, IntToString(rl.reset));
    }
    r := response;
  }

  /**
   * One request to a rate-limited route: the wrapper runs, with
   * `send_x_headers=True` (the default, which every route in views.py uses),
   * then the `after_request` hook on whichever response it produced. `view`
   * stands for the response of the wrapped view; its own effects (on protected
   * routes, `verify_password` writing `g.user`) are not modelled.
   */
  method ServeRateLimited(redis: CounterStore, g: RequestContext, endpoint: string, client: string,
                          limit: int, per: int, hasOverLimitHandler: bool, now: int, view: Response)
    returns (resp: Response)
    requires per != 0
    modifies redis, g, view
    ensures var charged := Charge(old(redis.State()), KeyPrefix(endpoint, client), limit, per, true, now);
            && redis.State() == charged.1
            && g.viewRateLimit == Some(charged.0)
            && g.user == old(g.user)
            && (if hasOverLimitHandler && charged.0.OverLimit()
                then && fresh(resp) && resp.status == TOO_MANY_REQUESTS && resp.body == OVER_LIMIT_BODY
                     && resp.headers == XRateHeaders(charged.0)
                     && unchanged(view)
                else && resp == view && resp.status == old(view.status) && resp.body == old(view.body)
                     && resp.headers == old(view.headers) + XRateHeaders(charged.0))
  {
    var viewCalled;
    resp, viewCalled := RateLimited(redis, g, endpoint, client, limit, per, true, hasOverLimitHandler, now, view);
    resp := InjectXRateHeaders(g, resp);
  }

  /** `response.headers.get(name)`: the value of the first header with that name. */
  function HeaderValue(headers: seq<Header>, name: string): Option<string> {
    if headers == [] then None
    else if headers[0].0 == name then Some(headers[0].1)
    else HeaderValue(headers[1..], name)
  }

  /** Headers that come after all headers of another name do not hide them. */
  lemma {:induction false} HeaderValueSkips(before: seq<Header>, after: seq<Header>, name: string)
    requires forall i :: 0 <= i < |before| ==> before[i].0 != name
    ensures HeaderValue(before + after, name) == HeaderValue(after, name)
  {
    if before == [] {
      assert before + after == after;
    } else {
      assert (before + after)[0] == before[0];
      assert (before + after)[1..] == before[1..] + after;
      HeaderValueSkips(before[1..], after, name);
    }
  }

  /**
   * On a response that had no `X-RateLimit-*` header, the injected headers read
   * back as the recorded limit state: remaining, limit and reset.
   */
  lemma InjectedHeadersReadBack(existing: seq<Header>, rl: RateLimit)
    requires forall i :: 0 <= i < |existing| ==>
               existing[i].0 != REMAINING_HEADER && existing[i].0 != LIMIT_HEADER && existing[i].0 != RESET_HEADER
    ensures var h := existing + XRateHeaders(rl);
            && HeaderValue(h, REMAINING_HEADER).Some? && ParseInt(HeaderValue(h, REMAINING_HEADER).value) == Some(rl.Remaining())
            && HeaderValue(h, LIMIT_HEADER).Some? && ParseInt(HeaderValue(h, LIMIT_HEADER).value) == Some(rl.limit)
            && HeaderValue(h, RESET_HEADER).Some? && ParseInt(HeaderValue(h, RESET_HEADER).value) == Some(rl.reset)
  {
    var x := XRateHeaders(rl);
    HeaderValueSkips(existing, x, REMAINING_HEADER);
    HeaderValueSkips(existing, x, LIMIT_HEADER);
    HeaderValueSkips(existing, x, RESET_HEADER);
    assert x[1..][1..] == [x[2]];
    assert RESET_HEADER != REMAINING_HEADER && RESET_HEADER != LIMIT_HEADER && LIMIT_HEADER != REMAINING_HEADER;
    assert HeaderValue(x, RESET_HEADER) == HeaderValue(x[1..], RESET_HEADER) == HeaderValue([x[2]], RESET_HEADER);
    ParseIntToString(rl.Remaining());
    ParseIntToString(rl.limit);
    ParseIntToString(rl.reset);
  }

  /** A throttled request reports `X-RateLimit-Remaining: 0`; an admitted one a positive count. */
  lemma ThrottledReportsZeroRemaining(s: Store, keyPrefix: string, limit: int, per: int,
                                      sendXHeaders: bool, now: int)
    requires per != 0
    ensures var rl := Charge(s, keyPrefix, limit, per, sendXHeaders, now).0;
            XRateHeaders(rl)[0].1 == (if rl.OverLimit() then "0" else IntToString(rl.Remaining()))
            && (!rl.OverLimit() ==> XRateHeaders(rl)[0].1[0] != '-' && XRateHeaders(rl)[0].1 != "0")
  {
    var rl := Charge(s, keyPrefix, limit, per, sendXHeaders, now).0;
    if rl.OverLimit() {
      assert rl.Remaining() == 0;
      assert IntToString(0) == "0";
    } else {
      IntToStringInjective(rl.Remaining(), 0);
      assert IntToString(0) == "0";
    }
  }

  /** The users the callback can find, by primary key and by user name. */
  datatype UserTable = UserTable(byId: map<int, User>, byUsername: map<string, User>)
  {
    /** Every row is filed under its own id and its own name. */
    ghost predicate Consistent() {
      && (forall id :: id in byId ==> byId[id].id == id)
      && (forall name :: name in byUsername ==> byUsername[name].username == name)
    }
  }

  /** What `verify_password` hands back to the basic-auth extension. */
  datatype AuthResult =
    | ReturnedTrue(user: User)   // `return True` after setting `g.user`
    | ReturnedFalse              // `return False`
    | ReturnedNone               // falls off the end of the token branch
    | RaisedNoResultFound        // `.one()` found no row for the token's id

  /** Python truthiness of what `verify_auth_token` returns: `None` and `0` are false. */
  predicate TokenYieldsId(tokenId: Option<int>)
    ensures TokenYieldsId(tokenId) <==> tokenId !in {None, Some(0)}
  {
    tokenId.Some? && tokenId.value != 0
  }

  /**
   * `verify_password(username_or_token, password)` as a value. The token is tried
   * first; `verifyAuthToken` stands for `User.verify_auth_token` (signature and
   * expiry check) and `passwordMatches(password, hash)` for passlib's `verify`.
   * Only the user-name branch ever answers true.
   */
  function Authenticate(users: UserTable, usernameOrToken: string, password: string,
                        verifyAuthToken: string -> Option<int>,
                        passwordMatches: (string, string) -> bool): (r: AuthResult)
    ensures r.ReturnedTrue? <==>
              && !TokenYieldsId(verifyAuthToken(usernameOrToken))
              && usernameOrToken in users.byUsername
              && passwordMatches(password, users.byUsername[usernameOrToken].passwordHash)
    ensures r.ReturnedTrue? ==> r.user == users.byUsername[usernameOrToken]
  {
    var userId := verifyAuthToken(usernameOrToken);
    if TokenYieldsId(userId) then
      if userId.value in users.byId then ReturnedNone else RaisedNoResultFound
    else if usernameOrToken !in users.byUsername then ReturnedFalse
    else
      var user := users.byUsername[usernameOrToken];
      if !passwordMatches(password, user.passwordHash) then ReturnedFalse else ReturnedTrue(user)
  }

  /**
   * A token that verifies never authenticates: the callback answers `None`
   * (or raises when the id has no row), which the extension treats as failure.
   */
  lemma TokenPathNeverAuthenticates(users: UserTable, token: string, password: string,
                                    verifyAuthToken: string -> Option<int>,
                                    passwordMatches: (string, string) -> bool)
    requires TokenYieldsId(verifyAuthToken(token))
    ensures var r := Authenticate(users, token, password, verifyAuthToken, passwordMatches);
            (r == ReturnedNone <==> verifyAuthToken(token).value in users.byId)
            && (r == RaisedNoResultFound <==> verifyAuthToken(token).value !in users.byId)
  {
  }

  /** Without a token id, an unknown name or a wrong password answers false. */
  lemma CredentialPathRejects(users: UserTable, usernameOrToken: string, password: string,
                              verifyAuthToken: string -> Option<int>,
                              passwordMatches: (string, string) -> bool)
    requires !TokenYieldsId(verifyAuthToken(usernameOrToken))
    ensures var r := Authenticate(users, usernameOrToken, password, verifyAuthToken, passwordMatches);
            r == ReturnedFalse <==>
              (usernameOrToken !in users.byUsername
               || !passwordMatches(password, users.byUsername[usernameOrToken].passwordHash))
  {
  }

  /** In a consistent table, the user that is accepted is the one named, and its password matched. */
  lemma AuthenticatedUserMatchesCredentials(users: UserTable, usernameOrToken: string, password: string,
                                            verifyAuthToken: string -> Option<int>,
                                            passwordMatches: (string, string) -> bool)
    requires users.Consistent()
    requires Authenticate(users, usernameOrToken, password, verifyAuthToken, passwordMatches).ReturnedTrue?
    ensures var u := Authenticate(users, usernameOrToken, password, verifyAuthToken, passwordMatches).user;
            u.username == usernameOrToken && passwordMatches(password, u.passwordHash)
  {
  }

  /** `verify_password`: answers as `Authenticate` and sets `g.user` only when it answers true. */
  method VerifyPassword(g: RequestContext, users: UserTable, usernameOrToken: string, password: string,
                        verifyAuthToken: string -> Option<int>,
                        passwordMatches: (string, string) -> bool)
    returns (r: AuthResult)
    modifies g
    ensures r == Authenticate(users, usernameOrToken, password, verifyAuthToken, passwordMatches)
    ensures g.user == if r.ReturnedTrue? then Some(r.user) else old(g.user)
    ensures g.viewRateLimit == old(g.viewRateLimit)
  {
    var userId := verifyAuthToken(usernameOrToken);
    if TokenYieldsId(userId) {
      if userId.value in users.byId {
        var user := users.byId[userId.value];
        r := ReturnedNone;
      } else {
        r := RaisedNoResultFound;
      }
    } else {
      if usernameOrToken !in users.byUsername {
        return ReturnedFalse;
      }
      var user := users.byUsername[usernameOrToken];
      if !passwordMatches(password, user.passwordHash) {
        return ReturnedFalse;
      }
      g.user := Some(user);
      r := ReturnedTrue(user);
    }
  }
}
