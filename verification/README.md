# Access control of SimpleApi, in Dafny

This project models the access-control layer of the SimpleApi Flask service
(`views.py`). The layer has three parts.

- **Fixed-window rate limiter.** `RateLimit` and the `ratelimit` decorator
  work out the end of the current `per`-second window. They increment a
  shared Redis counter under `rate-limit/<endpoint>/<client>/<reset>` and set
  its expiry to `reset + 10`. The count is reported capped at `limit`. An
  over-limit request gets a 429 response, and the view is not called.
- **Header injection.** The `after_request` hook copies the recorded limit
  state into `X-RateLimit-Remaining`, `X-RateLimit-Limit` and
  `X-RateLimit-Reset`.
- **Authentication callback.** `verify_password` tries the token first.
  Otherwise it looks up the user name and checks the password.

Modules:

- `Wrappers`: `Option`.
- `Decimal`: Python's `str()` on integers. It also has a parser, and a lemma
  proves that the parser reads back what `str` writes.
- `RateLimiting`:
  - the window arithmetic, with Python's floor division written out as `FloorDiv`;
  - the counter key;
  - the store value `Store` and the spec function `Charge`, with lemmas about
    charges in sequence;
  - the Redis instance as the class `CounterStore`, with `INCR` and `EXPIREAT`;
  - `NewRateLimit`, which is `RateLimit.__init__` and is proved against `Charge`.
- `FlaskContext`: the `Response` object, whose header list is extended in
  place, and the per-request globals `g` (`RequestContext`).
- `Views`:
  - the decorator's wrapper `RateLimited`;
  - the hook `InjectXRateHeaders`, and a request that runs both (`ServeRateLimited`);
  - `verify_password`, as the spec function `Authenticate` and the method
    `VerifyPassword`.

Modelling choices:

- The clock `int(time.time())` is an integer parameter `now`.
- Redis is a sequential store. Each charge is one indivisible step.
- `User.verify_auth_token` and passlib's `verify` are function parameters
  whose definitions are not part of this model. The token function has type
  `string -> Option<int>`; the password function takes the password and the
  hash and returns a `bool`.
- The user table is two partial maps, one by id and one by user name.

## Behaviour of the code worth knowing

- **Off-by-one in admission.** A request is throttled once its
  post-increment count reaches `limit`, so only `limit - 1` requests per
  window get through (views.py:40, 43). A reader might expect `limit = 3`
  to admit three requests; `RateLimiting.LimitThreeAdmitsTwo` proves that
  the code admits two and throttles the third with `Remaining` 0.
- **A valid token never authenticates.** When the token yields an id,
  `verify_password` loads the user and then falls off the end. It returns
  `None` and leaves `g.user` unset (views.py:80-82). A token id of `0` is
  falsy, so that token takes the user-name path.
- **No handling of counter-store failures.** The code does nothing when
  Redis fails, and neither does the model.
- **Order of the checks.** On the protected routes, `@ratelimit` sits outside
  `@auth.login_required` (for example views.py:91-92). So the rate limit is
  charged before authentication, and a throttled request never reaches the
  callback: `RateLimited` does not call the wrapped view, which on these
  routes is the authentication wrapper.

## Model

| member | source | states |
|---|---|---|
| `Decimal.NatToString` | views.py:33 | `str(n)` of a non-negative int is a non-empty digit string, starting with `0` only for 0, one digit exactly below 10 |
| `Decimal.IntToString` | views.py:33 | `str(n)` is non-empty and starts with `-` exactly for negative `n` |
| `Decimal.ParseIntToString` | views.py:72-74 | every integer written by `str` parses back to itself (round trip) |
| `Decimal.IntToStringInjective` | views.py:33 | distinct integers (window ends) have distinct decimal forms |
| `RateLimiting.FloorDiv` | views.py:32 | Python `//`: `q*b <= a < q*b + b` for `b > 0`, and the mirror bounds for `b < 0` |
| `RateLimiting.FloorDivUnique` | views.py:32 | for `b > 0` the floor quotient is the unique `q` with `q*b <= a < q*b + b` |
| `RateLimiting.WindowReset` | views.py:32 | for `per > 0` the window end is a multiple of `per` with `now < reset <= now + per` |
| `RateLimiting.WindowResetUnique` | views.py:32 | that window end is the only multiple of `per` in `(now, now + per]` |
| `RateLimiting.SameWindowIff` | views.py:32 | two moments get the same window end iff they have the same `now // per` |
| `RateLimiting.ExpiryOutlivesWindow` | views.py:39 | for `per > 0`, every moment of the window is before its end `reset`, hence before the counter's expiry `reset + 10`, so Redis keeps the counter for the whole window |
| `RateLimiting.NegativePerEndsInPast` | views.py:32-39 | for `per < 0` the computed end lies before `now` (`reset < now <= reset - per`), so the expiry `reset + 10` can already be past |
| `RateLimiting.NegativePerExpiryExample` | views.py:32-39 | at `now = 100, per = -60` the window end is 60 and the expiry 70, already past |
| `RateLimiting.KeyPrefix` | views.py:57 | `'rate-limit/%s/%s/' % (endpoint, client)`: the literal `rate-limit/`, the endpoint, `/`, the client and a closing `/`, and nothing else |
| `RateLimiting.CounterKey` | views.py:33 | `key_prefix + str(reset)`: the key starts with the prefix and the rest reads back as `reset` |
| `RateLimiting.SameCounterKeyIff` | views.py:57 | with `/`-free scopes, two charges share the key `rate-limit/<endpoint>/<client>/<reset>` iff same endpoint, same client and same `now // per` |
| `RateLimiting.SlashInScopeCollides` | views.py:57 | a `/` inside a scope lets two different endpoint/client pairs share one key, so the restriction above is needed |
| `RateLimiting.RateLimit.Remaining` | views.py:42 | `remaining = limit - current`: at most `limit` for a non-negative count, and non-negative exactly when `current <= limit` |
| `RateLimiting.RateLimit.OverLimit` | views.py:43 | `over_limit = current >= limit`: true exactly when `remaining <= 0` |
| `RateLimiting.Charge` | views.py:31-43 | a charge adds exactly one to its key's counter (from 0 when absent), sets that key's expiry to `reset + 10` and changes no other key; it reports `current <= limit` and `remaining >= 0`; `over_limit` iff the stored count `>= limit` iff `remaining == 0` |
| `RateLimiting.ChargesInOneWindow` | views.py:37-40 | the i-th charge in one window sees count `c0 + i + 1` and reports it capped at `limit`; the stored counter ends `|times|` higher, never clamped |
| `RateLimiting.FreshWindowAdmission` | views.py:40-43 | on a fresh key the n-th charge is admitted iff `n < limit`, remaining goes `limit-1, limit-2, …` and then stays 0, and the stored count is `n` even past the limit |
| `RateLimiting.LimitThreeAdmitsTwo` | views.py:40-43 | with `limit=3, per=60`, two requests are admitted (remaining 2, 1) and the third and fourth are throttled with remaining 0 |
| `RateLimiting.WindowRollover` | views.py:32-38 | a charge in another window uses another key and leaves the earlier window's counter unchanged |
| `RateLimiting.CounterStore.constructor` | views.py:2 | the client of views.py:2, modelled as connected to an empty server: no counters and no expiries |
| `RateLimiting.CounterStore.Incr` | views.py:38 | `INCR` returns the old count (0 if absent) plus one, stores it, and leaves expiries alone |
| `RateLimiting.CounterStore.ExpireAt` | views.py:39 | `EXPIREAT` sets the expiry of an existing key only, reports whether it did, and leaves counters alone |
| `RateLimiting.NewRateLimit` | views.py:31-40 | `RateLimit.__init__` yields the record and the new store state that `Charge` specifies |
| `FlaskContext.Response.AddHeader` | views.py:71-74 | `headers.add` appends the header and changes nothing else |
| `Views.OnOverLimit` | views.py:48-49 | the default handler returns a new 429 response with body `{'data': 'You hit the rate limit', 'error': '429'}` |
| `Views.RateLimited` | views.py:55-62 | the wrapper charges the store as `Charge` says and records the state in `g` before checking it; with a handler and over the limit it returns the 429 response without calling the view, otherwise exactly the view's response; the wrapper itself does not write `g.user` |
| `Views.XRateHeaders` | views.py:72-74 | the three headers the hook adds, in the order Remaining, Limit, Reset, each with a `str()` value that reads back as remaining, limit and reset |
| `Views.InjectXRateHeaders` | views.py:67-75 | with a recorded state whose `send_x_headers` is set, the hook appends exactly the Remaining, Limit and Reset headers; otherwise the response is unchanged; status and body are never changed |
| `Views.ServeRateLimited` | views.py:56-75 | one request through the wrapper with `send_x_headers=True` (the default, which every route in views.py uses) and then the hook: the store is charged as `Charge` says, and the wrapper and the hook do not write `g.user` (the view's own effects, including `verify_password`'s write on protected routes, are outside the model); a throttled request gets a new 429 response with the over-limit body and exactly the three headers, and the view's response is untouched; an admitted request gets the view's response with its status and body and the three headers appended |
| `Views.InjectedHeadersReadBack` | views.py:71-74 | on a response that had no such headers, the injected headers parse back to remaining, limit and reset |
| `Views.ThrottledReportsZeroRemaining` | views.py:72 | a throttled request reports `X-RateLimit-Remaining: 0`; an admitted one reports a positive count |
| `Views.TokenYieldsId` | views.py:81 | the test `if user_id:` fails exactly for `None` and `0`, Python's falsy values among what the token check returns |
| `Views.Authenticate` | views.py:78-88 | the answer is true iff the token yields no id, the user name exists and the password matches that user's hash, and then the user is that row |
| `Views.TokenPathNeverAuthenticates` | views.py:80-82 | when the token yields an id, the answer is `None` if that id has a row and an exception otherwise, and never true |
| `Views.CredentialPathRejects` | views.py:84-86 | without a token id, the answer is false iff the user name is unknown or the password does not match |
| `Views.AuthenticatedUserMatchesCredentials` | views.py:84-88 | in a consistent table, an accepted user has the given name and the password matched its hash |
| `Views.VerifyPassword` | views.py:77-88 | the callback answers as `Authenticate`, sets `g.user` exactly when it answers true, and leaves the limit state alone |

## Left out

- Token issuing and checking (`generate_auth_token`, `verify_auth_token`: itsdangerous signing and expiry) and password hashing (passlib). They appear only as function parameters of `Authenticate`, because their libraries are not part of this model.
- What flask_httpauth's `login_required` does with the callback's answer (a 401 response for a falsy answer, an error response for the exception). That extension is not part of this model.
- Concurrency and Redis atomicity. Each charge is one sequential step on the store.
- Redis-side behaviour beyond `INCR` and `EXPIREAT`. This includes the 64-bit overflow error of `INCR` and the removal of keys once their expiry passes. For `per > 0` a key is always charged before its expiry (`ExpiryOutlivesWindow`), so removal never affects a live window.
- `RateLimiting.Charge`: for a negative `per` (no route in views.py passes one; all use 60, the default is 300) the expiry set at views.py:39 can already be past (`NegativePerEndsInPast`). Redis would then delete the counter at once and keep reporting 1, while `Charge` keeps counting.
- Keys already on the Redis server when the process starts. The `CounterStore` constructor models an empty server; every lemma takes an arbitrary `Store`, so none depends on that.
- Failures of the counter store. The code has no handling for them.
- `scope_func`, `key_func` and custom `over_limit` handlers. The endpoint and the client address come in as the strings `%s` formats them to. The handler is either the default `on_over_limit` or absent (`hasOverLimitHandler`).
- `RateLimited` and `ServeRateLimited`: the wrapped view appears only as the response it returns. Its own effects are not modelled; on the protected routes these include `verify_password` setting `g.user`, so `ServeRateLimited`'s `g.user == old(g.user)` speaks of the wrapper and the hook only.
- Header names are compared exactly in `HeaderValue`. Werkzeug compares them without regard to case.
- JSON bodies are `map<string, string>`. The headers Flask adds on its own, such as Content-Type, are not modelled.
- `per == 0` is excluded by a requires. Python raises `ZeroDivisionError` there.
- The user table is two partial maps. The row `.first()` picks among duplicate user names is left open.
- The CRUD views and their database sessions (views.py:90-374 beyond their decorators), `app.run`, the ORM declarations in models.py, the random secret, and the interactive load client test.py. These are persistence, startup, randomness and I/O.
