/**
 * The request as the router sees it. Go keeps named arguments and the
 * cancellation signal in the request's `context.Context`; here they are
 * explicit fields.
 */
module Requests {
  import opened Wrappers

  /** `url.Values`: placeholder name to captured values. */
  type Args = map<string, seq<string>>

  datatype Request = Request(
    verb: string,        // r.Method
    path: string,
    args: Option<Args>,   // the value stored under `ctxKeyNamedArgs{}`, if any
    cancelled: bool)      // whether the context's `Done()` channel is closed

  /**
   * `set(r, ctxKeyNamedArgs{}, u)` (sdk/HTTP_mux.go:609-611): a later value
   * shadows an earlier one.
   */
  function WithArgs(r: Request, u: Args): (r': Request)
    ensures r'.args == Some(u)
    ensures r'.verb == r.verb && r'.path == r.path && r'.cancelled == r.cancelled
  {
    r.(args := Some(u))
  }

  /**
   * `NamedArgsFromRequest` (sdk/HTTP_mux.go:570-574): the stored values, or
   * the empty (nil) `url.Values` when nothing was stored.
   */
  function NamedArgs(r: Request): (u: Args)
    ensures r.args.None? ==> u == map[]
    ensures r.args.Some? ==> u == r.args.value
  {
    match r.args
    case None => map[]
    case Some(a) => a
  }

  /** `url.Values.Get`: the first value under `key`, or "" when there is none. */
  function Get(u: Args, key: string): (v: string)
    ensures key in u && |u[key]| > 0 ==> v == u[key][0]
    ensures !(key in u && |u[key]| > 0) ==> v == ""
  {
    if key in u && |u[key]| > 0 then u[key][0] else ""
  }

  /**
   * `CancelRequest` (sdk/HTTP_mux.go:584-591): the request now carries a
   * cancelled context; everything else it carries is kept.
   */
  function CancelRequest(r: Request): (r': Request)
    ensures r'.cancelled
    ensures r'.verb == r.verb && r'.path == r.path && r'.args == r.args
  {
    r.(cancelled := true)
  }
}
