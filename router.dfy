/**
 * Handlers, the cancellable middleware chain and the `Mux` router of
 * sdk/HTTP_mux.go: registration (`With`, `Handle`) keeps the entries
 * ordered by priority, and dispatch (`ServeHTTP`) serves the first entry
 * whose matcher matches, or the not-found handler on a cancelled request.
 *
 * A `ResponseWriter` is named by a number; the responses written so far
 * are a map from those numbers to status and body.
 */
module Router {
  import opened Wrappers
  import opened Requests
  import opened Patterns
  import opened Matchers
  import opened MatcherLaws
  import opened Collections
  import opened Constructors

  /** What has been written to one response writer: status 0 means no status yet. */
  datatype Response = Response(status: int, body: string)

  type Writers = map<nat, Response>

  /** The response written so far on writer `w` (nothing, when the writer is unknown). */
  function Current(ws: Writers, w: nat): Response {
    if w in ws then ws[w] else Response(0, "")
  }

  /**
   * `http.Error`: the status is set unless one was already written, and
   * the text is written followed by a newline.
   */
  function HttpError(resp: Response, text: string, code: int): (resp': Response)
    ensures resp'.body == resp.body + text + "\n"
    ensures resp.status == 0 ==> resp'.status == code
    ensures resp.status != 0 ==> resp'.status == resp.status
  {
    Response(if resp.status == 0 then code else resp.status, resp.body + text + "\n")
  }

  datatype Handler =
    | NilHandler
      /** A handler function: it may rewrite the request (as `set` and `CancelRequest` do) and write a response. */
    | Func(run: (Request, Response) -> (Request, Response))
      /** The default not-found handler: `http.Error` on the writer it captured, whatever writer it is served. */
    | ErrorTo(writer: nat, code: int, text: string)
      /** `Middleware(h...)` (sdk/HTTP_mux.go:593-607). */
    | Chain(handlers: seq<Handler>)
      /** A `Mux` used as a handler. */
    | MuxHandler(mux: Mux)

  /** `ServeHTTP` of a handler on writer `w`: the request and the responses afterwards. */
  function Serve(h: Handler, w: nat, r: Request, ws: Writers): (Request, Writers)
    decreases h, 1
  {
    match h
    case NilHandler => (r, ws)
    case Func(run) =>
      var (r', resp) := run(r, Current(ws, w));
      (r', ws[w := resp])
    case ErrorTo(target, code, text) =>
      (r, ws[target := HttpError(Current(ws, target), text, code)])
    case Chain(_) => ServeChain(h, 0, w, r, ws)
    case MuxHandler(_) => (r, ws)
  }

  /**
   * The loop of `middleware.ServeHTTP` (sdk/HTTP_mux.go:597-607) from
   * handler `i`: a handler runs only while the request is not cancelled.
   */
  function ServeChain(h: Handler, i: nat, w: nat, r: Request, ws: Writers): (Request, Writers)
    requires h.Chain? && i <= |h.handlers|
    decreases h, 0, |h.handlers| - i
  {
    if i == |h.handlers| then (r, ws)
    else if r.cancelled then ServeChain(h, i + 1, w, r, ws)
    else
      var (r', ws') := Serve(h.handlers[i], w, r, ws);
      ServeChain(h, i + 1, w, r', ws')
  }

  /** `middleware.ServeHTTP` (sdk/HTTP_mux.go:597-607). */
  method ServeMiddleware(hs: seq<Handler>, w: nat, r: Request, ws: Writers) returns (r': Request, ws': Writers)
    ensures (r', ws') == Serve(Chain(hs), w, r, ws)
  {
    r', ws' := r, ws;
    var i := 0;
    while i < |hs|
      invariant 0 <= i <= |hs|
      invariant ServeChain(Chain(hs), i, w, r', ws') == Serve(Chain(hs), w, r, ws)
    {
      if !r'.cancelled {
        var served := Serve(hs[i], w, r', ws');
        r', ws' := served.0, served.1;
      }
      i := i + 1;
    }
  }

  /**
   * Once the request reaching handler `i` is cancelled, that handler and
   * every later one are skipped: nothing is written and the request stays
   * as it is, still cancelled.
   */
  lemma {:induction false} CancelledSkipsRest(h: Handler, i: nat, w: nat, r: Request, ws: Writers)
    requires h.Chain? && i <= |h.handlers| && r.cancelled
    ensures ServeChain(h, i, w, r, ws) == (r, ws)
    decreases |h.handlers| - i
  {
    if i < |h.handlers| {
      CancelledSkipsRest(h, i + 1, w, r, ws);
    }
  }

  lemma {:induction false} ChainSuffix(a: seq<Handler>, b: seq<Handler>, j: nat, w: nat, r: Request, ws: Writers)
    requires j <= |b|
    ensures ServeChain(Chain(a + b), |a| + j, w, r, ws) == ServeChain(Chain(b), j, w, r, ws)
    decreases |b| - j
  {
    if j < |b| {
      assert (a + b)[|a| + j] == b[j];
      if r.cancelled {
        ChainSuffix(a, b, j + 1, w, r, ws);
      } else {
        var (r', ws') := Serve(b[j], w, r, ws);
        ChainSuffix(a, b, j + 1, w, r', ws');
      }
    }
  }

  lemma {:induction false} ChainPrefix(a: seq<Handler>, b: seq<Handler>, i: nat, w: nat, r: Request, ws: Writers)
    requires i <= |a|
    ensures var (r1, ws1) := ServeChain(Chain(a), i, w, r, ws);
      ServeChain(Chain(a + b), i, w, r, ws) == ServeChain(Chain(b), 0, w, r1, ws1)
    decreases |a| - i
  {
    if i == |a| {
      ChainSuffix(a, b, 0, w, r, ws);
    } else {
      assert (a + b)[i] == a[i];
      if r.cancelled {
        ChainPrefix(a, b, i + 1, w, r, ws);
      } else {
        var (r', ws') := Serve(a[i], w, r, ws);
        ChainPrefix(a, b, i + 1, w, r', ws');
      }
    }
  }

  /**
   * Chaining composes: `Middleware(a..., b...)` serves `Middleware(a...)`
   * and then `Middleware(b...)` on what it leaves, so when the first part
   * ends with the request cancelled the second part does nothing at all.
   */
  lemma ChainComposes(a: seq<Handler>, b: seq<Handler>, w: nat, r: Request, ws: Writers)
    ensures var (r1, ws1) := Serve(Chain(a), w, r, ws);
      && Serve(Chain(a + b), w, r, ws) == Serve(Chain(b), w, r1, ws1)
      && (r1.cancelled ==> Serve(Chain(a + b), w, r, ws) == (r1, ws1))
  {
    ChainPrefix(a, b, 0, w, r, ws);
    var (r1, ws1) := Serve(Chain(a), w, r, ws);
    if r1.cancelled {
      CancelledSkipsRest(Chain(b), 0, w, r1, ws1);
    }
  }

  // ---------------------------------------------------------------------------
  // The router
  // ---------------------------------------------------------------------------

  datatype Entry = Entry(next: Handler, matcher: Matcher)

  /** An entry `ServeHTTP` considers: non-nil handler and matcher. */
  predicate Usable(e: Entry) {
    !e.next.NilHandler? && !e.matcher.Nil?
  }

  function EntryPriority(e: Entry): real
    requires !e.matcher.Nil?
  {
    Priority(e.matcher)
  }

  /** Entries ordered by non-increasing priority. */
  ghost predicate ByPriority(es: seq<Entry>)
    requires forall k :: 0 <= k < |es| ==> !es[k].matcher.Nil?
  {
    forall i, j :: 0 <= i < j < |es| ==> EntryPriority(es[i]) >= EntryPriority(es[j])
  }

  /** Some entry's matcher has key `key`. */
  ghost predicate HasKey(es: seq<Entry>, key: Key) {
    exists k :: 0 <= k < |es| && KeyOf(es[k].matcher) == key
  }

  /**
   * Where a stable sort by non-increasing priority puts an entry of priority
   * `p` appended after `es[..k]`: just after the last entry whose priority is
   * at least `p`.
   */
  function InsertIndex(es: seq<Entry>, p: real, k: nat): (idx: nat)
    requires k <= |es| && forall j :: 0 <= j < |es| ==> !es[j].matcher.Nil?
    ensures idx <= k
    ensures idx > 0 ==> EntryPriority(es[idx - 1]) >= p
    ensures forall j :: idx <= j < k ==> EntryPriority(es[j]) < p
  {
    if k == 0 || EntryPriority(es[k - 1]) >= p then k else InsertIndex(es, p, k - 1)
  }

  /** `es` after appending `e` and stable-sorting by non-increasing priority, `es` being sorted already. */
  function StableInsert(es: seq<Entry>, e: Entry): seq<Entry>
    requires !e.matcher.Nil? && forall j :: 0 <= j < |es| ==> !es[j].matcher.Nil?
  {
    var k := InsertIndex(es, EntryPriority(e), |es|);
    es[..k] + [e] + es[k..]
  }

  /** Where each entry ends up after `StableInsert`. */
  lemma StableInsertPlaces(es: seq<Entry>, e: Entry)
    requires !e.matcher.Nil? && forall j :: 0 <= j < |es| ==> !es[j].matcher.Nil?
    ensures var r := StableInsert(es, e);
      var k := InsertIndex(es, EntryPriority(e), |es|);
      && |r| == |es| + 1 && r[k] == e
      && (forall j :: 0 <= j < k ==> r[j] == es[j])
      && (forall j :: k < j < |r| ==> r[j] == es[j - 1])
  {
  }

  /**
   * Inserting keeps the order: the new entry goes after every entry of at
   * least its priority (so ties keep registration order) and before every
   * entry of lower priority.
   */
  lemma StableInsertOrdered(es: seq<Entry>, e: Entry)
    requires !e.matcher.Nil? && forall j :: 0 <= j < |es| ==> !es[j].matcher.Nil?
    requires ByPriority(es)
    ensures var k := InsertIndex(es, EntryPriority(e), |es|);
      && (forall j :: 0 <= j < k ==> EntryPriority(es[j]) >= EntryPriority(e))
      && (forall j :: k <= j < |es| ==> EntryPriority(es[j]) < EntryPriority(e))
    ensures var r := StableInsert(es, e);
      (forall j :: 0 <= j < |r| ==> !r[j].matcher.Nil?) && ByPriority(r)
  {
    var r := StableInsert(es, e);
    var k := InsertIndex(es, EntryPriority(e), |es|);
    var p := EntryPriority(e);
    StableInsertPlaces(es, e);
    forall j | 0 <= j < k ensures EntryPriority(es[j]) >= p {
      assert EntryPriority(es[j]) >= EntryPriority(es[k - 1]);
    }
    forall i, j | 0 <= i < j < |r| ensures EntryPriority(r[i]) >= EntryPriority(r[j]) {
      if j < k {
        assert EntryPriority(es[i]) >= EntryPriority(es[j]);
      } else if i > k {
        assert EntryPriority(es[i - 1]) >= EntryPriority(es[j - 1]);
      }
    }
  }

  /** The duplicate check of `Mux.With` (sdk/HTTP_mux.go:84-91): is some entry's key `key`? */
  method Registers(es: seq<Entry>, key: Key) returns (found: bool)
    ensures found <==> HasKey(es, key)
  {
    var i := 0;
    while i < |es|
      invariant 0 <= i <= |es|
      invariant forall j :: 0 <= j < i ==> KeyOf(es[j].matcher) != key
    {
      if KeyOf(es[i].matcher) == key {
        return true;
      }
      i := i + 1;
    }
    return false;
  }

  /**
   * `append` followed by `sort.SliceStable` by non-increasing priority
   * (sdk/HTTP_mux.go:93-99), on entries that are sorted already: the new
   * entry moves back past every entry of lower priority.
   */
  method InsertByPriority(es: seq<Entry>, e: Entry) returns (r: seq<Entry>)
    requires !e.matcher.Nil? && forall j :: 0 <= j < |es| ==> !es[j].matcher.Nil?
    ensures r == StableInsert(es, e)
  {
    var p := Priority(e.matcher);
    var k := |es|;
    while k > 0 && Priority(es[k - 1].matcher) < p
      invariant 0 <= k <= |es|
      invariant InsertIndex(es, p, k) == InsertIndex(es, p, |es|)
    {
      k := k - 1;
    }
    r := es[..k] + [e] + es[k..];
  }

  /** No two entries share a key. */
  ghost predicate DistinctKeys(es: seq<Entry>) {
    forall i, j :: 0 <= i < j < |es| ==> KeyOf(es[i].matcher) != KeyOf(es[j].matcher)
  }

  /** Inserting an entry whose key is new keeps the keys distinct. */
  lemma StableInsertDistinct(es: seq<Entry>, e: Entry)
    requires !e.matcher.Nil? && forall j :: 0 <= j < |es| ==> !es[j].matcher.Nil?
    requires DistinctKeys(es) && !HasKey(es, KeyOf(e.matcher))
    ensures DistinctKeys(StableInsert(es, e)) && HasKey(StableInsert(es, e), KeyOf(e.matcher))
  {
    var r := StableInsert(es, e);
    var k := InsertIndex(es, EntryPriority(e), |es|);
    StableInsertPlaces(es, e);
    forall a, b | 0 <= a < b < |r| ensures KeyOf(r[a].matcher) != KeyOf(r[b].matcher) {
      if a != k && b != k {
        var a' := if a < k then a else a - 1;
        var b' := if b < k then b else b - 1;
        assert r[a] == es[a'] && r[b] == es[b'];
      } else if a == k {
        assert r[b] == es[b - 1];
      } else {
        assert r[a] == es[a];
      }
    }
  }

  /** Usable entries, ordered by priority, no two with the same key. */
  ghost predicate ValidEntries(es: seq<Entry>) {
    && (forall k :: 0 <= k < |es| ==> Usable(es[k]))
    && ByPriority(es)
    && DistinctKeys(es)
  }

  /** Registering a usable entry with a new key keeps the entries valid and adds its key. */
  lemma StableInsertValid(es: seq<Entry>, e: Entry)
    requires ValidEntries(es) && Usable(e) && !HasKey(es, KeyOf(e.matcher))
    ensures ValidEntries(StableInsert(es, e)) && HasKey(StableInsert(es, e), KeyOf(e.matcher))
  {
    var r := StableInsert(es, e);
    StableInsertPlaces(es, e);
    StableInsertOrdered(es, e);
    StableInsertDistinct(es, e);
    forall j | 0 <= j < |r| ensures Usable(r[j]) {
      var k := InsertIndex(es, EntryPriority(e), |es|);
      if j < k {
        assert r[j] == es[j];
      } else if j > k {
        assert r[j] == es[j - 1];
      }
    }
  }

  /**
   * The first usable entry from position `i` whose matcher matches, or -1,
   * with the request as the match attempts leave it (a failed And can still
   * have attached named arguments).
   */
  function FirstMatch(es: seq<Entry>, i: nat, r: Request): (found: (int, Request))
    requires i <= |es|
    ensures found.0 == -1 || i <= found.0 < |es|
    decreases |es| - i
  {
    if i == |es| then (-1, r)
    else if Usable(es[i]) then
      var (found, r') := Match(es[i].matcher, r);
      if found then (i, r') else FirstMatch(es, i + 1, r')
    else FirstMatch(es, i + 1, r)
  }

  /**
   * `FirstMatch` finds the first usable entry that matches the original
   * request, and leaves the request's method, path and cancellation alone.
   */
  lemma {:induction false} FirstMatchSpec(es: seq<Entry>, i: nat, r: Request, r0: Request)
    requires i <= |es| && SameRoute(r, r0)
    ensures var (k, r') := FirstMatch(es, i, r);
      && (k >= 0 ==> i <= k < |es| && Usable(es[k]) && Match(es[k].matcher, r0).0)
      && (forall j :: i <= j < |es| && (k < 0 || j < k) && Usable(es[j]) ==> !Match(es[j].matcher, r0).0)
      && SameRoute(r', r) && r'.cancelled == r.cancelled
    decreases |es| - i
  {
    if i < |es| {
      if Usable(es[i]) {
        var (found, r') := Match(es[i].matcher, r);
        MatchRoute(es[i].matcher, r, r0);
        if !found {
          FirstMatchSpec(es, i + 1, r', r0);
        }
      } else {
        FirstMatchSpec(es, i + 1, r, r0);
      }
    }
  }

  /**
   * With entries ordered by priority, the entry served has the highest
   * priority among all entries that match the request.
   */
  lemma FirstMatchHighest(es: seq<Entry>, r: Request)
    requires forall k :: 0 <= k < |es| ==> !es[k].matcher.Nil?
    requires ByPriority(es)
    ensures var (k, _) := FirstMatch(es, 0, r);
      k >= 0 ==> forall j :: 0 <= j < |es| && Usable(es[j]) && Match(es[j].matcher, r).0 ==>
        EntryPriority(es[k]) >= EntryPriority(es[j])
  {
    FirstMatchSpec(es, 0, r, r);
  }

  /** The default not-found handler `ServeHTTP` installs, bound to writer `w`. */
  function NotFound(w: nat): Handler {
    ErrorTo(w, 404, "Not Found")
  }

  class Mux {
    var entries: seq<Entry>
    var notFoundHandler: Handler
    var middleware: Option<Handler -> Handler>

    /** Registered entries, ordered by priority, no two with the same key. */
    ghost predicate Valid()
      reads this
    {
      ValidEntries(entries)
    }

    /** `new(Mux)`: no entries, no not-found handler, no middleware. */
    constructor ()
      ensures Valid()
      ensures entries == [] && notFoundHandler.NilHandler? && middleware.None?
    {
      entries := [];
      notFoundHandler := NilHandler;
      middleware := None;
    }

    /**
     * `Mux.With` (sdk/HTTP_mux.go:78-102). The handler must be non-nil and
     * not the mux itself, and the matcher non-nil and passing its `Test`
     * (Go panics otherwise). The tested matcher is registered unless an
     * entry with the same key exists, and the entries stay ordered by
     * priority with ties in registration order.
     */
    method With(next: Handler, matcher: Matcher)
      requires Valid()
      requires !next.NilHandler? && !(next.MuxHandler? && next.mux == this)
      requires !matcher.Nil? && WF(matcher) && Test(matcher).0
      modifies this
      ensures Valid()
      ensures notFoundHandler == old(notFoundHandler) && middleware == old(middleware)
      ensures var e := Entry(next, Test(matcher).1);
        && (HasKey(old(entries), KeyOf(e.matcher)) ==> entries == old(entries))
        && (!HasKey(old(entries), KeyOf(e.matcher)) ==> entries == StableInsert(old(entries), e))
      ensures HasKey(entries, KeyOf(Test(matcher).1))
    {
      var (_, tested) := Test(matcher);
      var bm := KeyOf(tested);
      var duplicate := Registers(entries, bm);
      if duplicate {
        return;
      }
      var e := Entry(next, tested);
      StableInsertValid(entries, e);
      entries := InsertByPriority(entries, e);
    }

    /**
     * `Mux.Handle` (sdk/HTTP_mux.go:107-112): registers `next` under the
     * And of a one-method matcher and a case-insensitive pattern with the
     * default delimiters.
     */
    method Handle(verb: string, pattern: string, next: Handler)
      requires Valid()
      requires !next.NilHandler? && !(next.MuxHandler? && next.mux == this)
      requires verb == "*" || IsVerb(verb)
      requires |pattern| > 0
      modifies this
      ensures Valid()
      ensures notFoundHandler == old(notFoundHandler) && middleware == old(middleware)
      ensures var e := Entry(next, Test(HandleMatcher(verb, pattern)).1);
        && HasKey(entries, KeyOf(e.matcher))
        && (HasKey(old(entries), KeyOf(e.matcher)) ==> entries == old(entries))
        && (!HasKey(old(entries), KeyOf(e.matcher)) ==> entries == StableInsert(old(entries), e))
    {
      var methods := MakeMethods(0.0, [verb]);
      assert methods.methods == [verb] by {
        assert verb in methods.methods;
      }
      var pat := MakePattern(0.0, pattern, "", "", false);
      HandleBuilds(methods, pat, verb, pattern);
      var m := MakeAnd(0.0, [methods, pat]);
      HandleMatcherPasses(verb, pattern);
      With(next, m);
    }

    /**
     * `Mux.ServeHTTP` (sdk/HTTP_mux.go:29-75). The middleware defaults to
     * the identity. The first usable entry whose matcher matches is served
     * through the middleware; otherwise the not-found handler (by default
     * `http.Error` with 404 on this request's writer, kept for later
     * requests) is served through it on the cancelled request.
     */
    method ServeHTTP(w: nat, r: Request, ws: Writers) returns (r': Request, ws': Writers)
      modifies this
      ensures entries == old(entries)
      ensures middleware.Some?
      ensures old(middleware).Some? ==> middleware == old(middleware)
      ensures old(middleware).None? ==> forall h :: middleware.value(h) == h
      ensures var (k, r1) := FirstMatch(entries, 0, r);
        && (k >= 0 ==> notFoundHandler == old(notFoundHandler) &&
                       (r', ws') == Serve(middleware.value(entries[k].next), w, r1, ws))
        && (k < 0 ==> notFoundHandler == (if old(notFoundHandler).NilHandler? then NotFound(w) else old(notFoundHandler)) &&
                      (r', ws') == Serve(middleware.value(notFoundHandler), w, CancelRequest(r1), ws))
    {
      if middleware.None? {
        middleware := Some(h => h);
      }
      var mw := middleware.value;
      var req := r;
      var i := 0;
      while i < |entries|
        invariant 0 <= i <= |entries|
        invariant FirstMatch(entries, i, req) == FirstMatch(entries, 0, r)
      {
        var e := entries[i];
        if !e.matcher.Nil? && !e.next.NilHandler? {
          var (found, req') := Match(e.matcher, req);
          req := req';
          if found {
            var served := Serve(mw(e.next), w, req, ws);
            r', ws' := served.0, served.1;
            return;
          }
        }
        i := i + 1;
      }
      if notFoundHandler.NilHandler? {
        notFoundHandler := NotFound(w);
      }
      var served := Serve(mw(notFoundHandler), w, CancelRequest(req), ws);
      r', ws' := served.0, served.1;
    }
  }

  /** The matcher `Handle` registers for `verb` and `pattern`, before `With` tests it. */
  ghost function HandleMatcher(verb: string, pattern: string): Matcher {
    And(0.0, [Test(Methods(0.0, [verb])).1, Test(MakePattern(0.0, pattern, "", "", false)).1])
  }

  /** What the constructors in `Handle` build is `HandleMatcher`. */
  lemma HandleBuilds(methods: Matcher, pat: Matcher, verb: string, pattern: string)
    requires methods == Methods(0.0, [verb]) && pat == MakePattern(0.0, pattern, "", "", false)
    ensures Ready(methods) && Ready(pat)
    ensures And(0.0, KeepLast(TestAll([methods, pat]), KeyOf)) == HandleMatcher(verb, pattern)
  {
    FreshLeavesReady(0.0, pattern, "", "", false, [verb]);
    TestAllPair(methods, pat);
    PatternTestSpec(pat);
    var t0, t1 := Test(methods).1, Test(pat).1;
    assert KeyOf(t0) != KeyOf(t1) by {
      assert t0.Methods?;
    }
    KeepLastPair(t0, t1, KeyOf);
  }

  /**
   * `Handle` passes `With`'s test exactly when the method is `*` or one of
   * the nine methods and the pattern is not empty (it panics otherwise).
   */
  lemma HandleMatcherPasses(verb: string, pattern: string)
    ensures WF(HandleMatcher(verb, pattern))
    ensures Test(HandleMatcher(verb, pattern)).0 <==> (verb == "*" || IsVerb(verb)) && |pattern| > 0
  {
    var m := HandleMatcher(verb, pattern);
    var methods := Methods(0.0, [verb]);
    var pat := MakePattern(0.0, pattern, "", "", false);
    TestSettles(methods);
    TestSettles(pat);
    AndTestSpec(m);
    MethodsTestSpec([verb], 0.0);
    PatternTestSpec(pat);
    assert m.muxes[0] == Test(methods).1 && m.muxes[1] == Test(pat).1;
    assert ValidUpToStar([verb]) <==> verb == "*" || IsVerb(verb) by {
      assert NoStarBefore([verb], 0);
    }
  }

  /**
   * The request a route registered by `Handle` hands to its handler: the
   * pattern's captures are attached exactly when the method matches and the
   * keyed walk over the path succeeds; otherwise the request is untouched.
   */
  lemma HandleMatchArgs(verb: string, pattern: string, r: Request)
    ensures var pat := Test(MakePattern(0.0, pattern, "", "", false)).1;
      var served := Match(Test(HandleMatcher(verb, pattern)).1, r).1;
      if MethodsMatch([verb], r.verb) && pat.parseURI.Keyed? &&
         Extract(pat.parseURI.keys, pat.end, PathFor(pat, r)).ok
      then served == WithArgs(r, Extract(pat.parseURI.keys, pat.end, PathFor(pat, r)).args)
      else served == r
  {
    var methods := Methods(0.0, [verb]);
    var pat0 := MakePattern(0.0, pattern, "", "", false);
    TestSettles(methods);
    TestSettles(pat0);
    var m := HandleMatcher(verb, pattern);
    HandleMatcherPasses(verb, pattern);
    AndTestKeeps(m);
    var m' := Test(m).1;
    assert m'.muxes[0] == Methods(Test(methods).1.p, [verb]);
    MethodsThenMatch(m', r);
    PatternAttach(m'.muxes[1], r);
  }

  /**
   * The priority of a route registered by `Handle`: the method part (0 for
   * `*`, 9 for one method) plus the pattern's own priority.
   */
  lemma HandlePriority(verb: string, pattern: string)
    requires verb == "*" || IsVerb(verb)
    ensures Test(HandleMatcher(verb, pattern)).1.p ==
      (if verb == "*" then 0.0 else 9.0) + Test(MakePattern(0.0, pattern, "", "", false)).1.p
  {
    var m := HandleMatcher(verb, pattern);
    var methods := Methods(0.0, [verb]);
    var pat := MakePattern(0.0, pattern, "", "", false);
    TestSettles(methods);
    TestSettles(pat);
    HandleMatcherPasses(verb, pattern);
    AndTestPriority(m);
    MethodsTestSpec([verb], 0.0);
    assert ValidUpToStar([verb]) by {
      assert NoStarBefore([verb], 0);
    }
    assert SumFrom(m.muxes, 2) == 0.0;
    assert SumFrom(m.muxes, 1) == Test(pat).1.p;
    assert SumFrom(m.muxes, 0) == Test(methods).1.p + Test(pat).1.p;
  }
}
