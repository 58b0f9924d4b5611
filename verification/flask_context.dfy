/**
 * The parts of Flask the access-control layer reads and writes: the response
 * object whose header list `inject_x_rate_headers` extends in place, and the
 * per-request globals `g` where the wrapper records the limit state and
 * `verify_password` records the authenticated user.
 */
module FlaskContext {

  import opened Wrappers
  import opened RateLimiting

  /** A row of the user table, as far as authentication reads it. */
  datatype User = User(id: int, username: string, passwordHash: string)

  /** One response header, name and value. */
  type Header = (string, string)

  /** A response: status code, JSON body and its (multi-valued, ordered) header list. */
  class Response {
    var status: int
    var body: map<string, string>
    var headers: seq<Header>

    constructor (status: int, body: map<string, string>)
      ensures this.status == status && this.body == body && headers == []
    {
      this.status := status;
      this.body := body;
      headers := [];
    }

    /** `response.headers.add(name, value)`: appends, keeping any header of the same name. */
    method AddHeader(name: string, value: string)
      modifies this
      ensures headers == old(headers) + [(name, value)]
      ensures status == old(status) && body == old(body)
    {
      headers := headers + [(name, value)];
    }
  }

  /** `flask.g` for one request. */
  class RequestContext {
    /** `g._view_rate_limit`; `None` until a rate-limited view has run. */
    var viewRateLimit: Option<RateLimit>
    /** `g.user`; unset until authentication succeeds. */
    var user: Option<User>

    constructor ()
      ensures viewRateLimit == None && user == None
    {
      viewRateLimit := None;
      user := None;
    }
  }
}
