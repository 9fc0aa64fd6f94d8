/**
 * Worked examples from sdk/HTTP_mux_test.go, computed on the model. Where
 * the code and a test disagree the model follows the code, and the lemma
 * says what the code gives.
 */
module Scenarios {
  import opened Wrappers
  import opened Text
  import opened Requests
  import opened Patterns
  import opened Matchers
  import opened MatcherLaws
  import opened Collections
  import opened Constructors
  import opened Router

  /**
   * Three placeholders, each after a `/` literal, the shape of the pattern
   * `/:args1/:args2/:args3` of sdk/HTTP_mux_test.go:142 (the `/` that
   * `parsePattern` keeps after the last placeholder is never flushed).
   */
  const ThreeArgs: seq<Token> :=
    [Literal("/"), Placeholder("args1"), Literal("/"), Placeholder("args2"), Literal("/"), Placeholder("args3")]

  /**
   * Whatever the path, a successful match of the three placeholders
   * captures `args3` alone: a placeholder followed by a literal records
   * nothing. On `/x/yyy/z` the test at sdk/HTTP_mux_test.go:145-146
   * nevertheless expects `args1` and `args2` to be `x` and `yyy`.
   */
  lemma ThreeArgsCaptureLast(uri: string)
    ensures var w := Extract(ThreeArgs, "/", uri);
      w.ok ==> && w.args.Keys == {"args3"}
               && Get(w.args, "args1") == "" && Get(w.args, "args2") == ""
               && |w.segs| == 6 && w.args["args3"] == [w.segs[5]]
  {
    var k := ThreeArgs;
    assert forall j :: 0 <= j < |k| - 1 ==> k[j].Literal? || k[j + 1].Literal?;
    OnlyLastCaptured(k, "/", uri);
  }

  /**
   * The path `/x/yyy/z` of sdk/HTTP_mux_test.go:143-144 is matched: the walk
   * succeeds, and `args3` is `z`.
   */
  lemma ThreeArgsMatchPath()
    ensures var w := Extract(ThreeArgs, "/", "/x/yyy/z");
      w.ok && w.segs == ["/", "x", "/", "yyy", "/", "z"] && w.args == map["args3" := ["z"]]
  {
    var segs := ["/", "x", "/", "yyy", "/", "z"];
    SlicesFit(segs);
    SlicesJoin(segs);
    ExtractComplete(ThreeArgs, "/", "/x/yyy/z", segs);
  }

  /** A slice without `/` stops at the first `/` after it. */
  lemma NoSlashFirst(seg: string)
    requires forall j :: 0 <= j < |seg| ==> seg[j] != '/'
    ensures FirstOccurrence(seg, "/")
  {
    var s := seg + "/";
    LookaheadChar(s, '/');
    forall j | 0 <= j < |seg| ensures !Lookahead(s, "/", j) {
      assert s[j] == seg[j];
    }
  }

  /** The six slices of `/x/yyy/z` agree with the tokens of `/:args1/:args2/:args3`. */
  lemma SlicesFit(segs: seq<string>)
    requires segs == ["/", "x", "/", "yyy", "/", "z"]
    ensures Fits(ThreeArgs, "/", segs)
  {
    NoSlashFirst("x");
    NoSlashFirst("yyy");
  }

  /** The six slices of `/x/yyy/z` make up the path. */
  lemma SlicesJoin(segs: seq<string>)
    requires segs == ["/", "x", "/", "yyy", "/", "z"]
    ensures Concat(segs) == "/x/yyy/z"
  {
    var c1 := ["/"];
    var c2 := c1 + ["x"];
    var c3 := c2 + ["/"];
    var c4 := c3 + ["yyy"];
    var c5 := c4 + ["/"];
    ConcatAppend([], "/");
    assert [] + ["/"] == c1;
    ConcatAppend(c1, "x");
    ConcatAppend(c2, "/");
    ConcatAppend(c3, "yyy");
    ConcatAppend(c4, "/");
    ConcatAppend(c5, "z");
    assert c5 + ["z"] == segs;
  }

  // ---------------------------------------------------------------------------
  // Handlers and the router
  // ---------------------------------------------------------------------------

  /** The test's `handle(code, header, body)`: set the status (unless set) and write the body. */
  function Write(code: int, body: string): Handler {
    Func((r: Request, resp: Response) => (r, Response(if resp.status == 0 then code else resp.status, resp.body + body)))
  }

  /** A handler that only calls `CancelRequest`. */
  const Canceller: Handler := Func((r: Request, resp: Response) => (CancelRequest(r), resp))

  /** No writer has been written to yet. */
  const Fresh: Writers := map[]

  /** What `Write` does on a writer. */
  lemma WriteServes(code: int, body: string, w: nat, r: Request, ws: Writers)
    ensures var resp := Current(ws, w);
      Serve(Write(code, body), w, r, ws) == (r, ws[w := Response(if resp.status == 0 then code else resp.status, resp.body + body)])
  {
  }

  /** The default not-found handler on a writer with no status yet. */
  lemma NotFoundServes(target: nat, w: nat, r: Request, ws: Writers)
    requires Current(ws, target).status == 0
    ensures Serve(NotFound(target), w, r, ws) == (r, ws[target := Response(404, Current(ws, target).body + "Not Found\n")])
  {
    var body := Current(ws, target).body;
    assert body + "Not Found" + "\n" == body + "Not Found\n";
  }

  /**
   * sdk/HTTP_mux_test.go:43-51: in `Middleware(h200, cancel, h500)` the
   * handler after the cancellation does not run.
   */
  lemma MiddlewareStopsAtCancel(r: Request)
    requires !r.cancelled
    ensures var (r', ws) := Serve(Chain([Write(200, "OK"), Canceller, Write(500, "Internal Server Error\n")]), 0, r, Fresh);
      r'.cancelled && Current(ws, 0) == Response(200, "OK")
  {
    var h := Chain([Write(200, "OK"), Canceller, Write(500, "Internal Server Error\n")]);
    var ws1 := Fresh[0 := Response(200, "" + "OK")];
    WriteServes(200, "OK", 0, r, Fresh);
    assert ServeChain(h, 0, 0, r, Fresh) == ServeChain(h, 1, 0, r, ws1);
    assert Serve(Canceller, 0, r, ws1) == (CancelRequest(r), ws1[0 := Current(ws1, 0)]);
    assert ws1[0 := Current(ws1, 0)] == ws1;
    assert ServeChain(h, 1, 0, r, ws1) == ServeChain(h, 2, 0, CancelRequest(r), ws1);
    CancelledSkipsRest(h, 2, 0, CancelRequest(r), ws1);
    assert "" + "OK" == "OK";
  }

  /** sdk/HTTP_mux_test.go:62-67: a mux without entries answers 404 with "Not Found\n". */
  method EmptyMuxNotFound(r: Request) returns (ws: Writers)
    ensures Current(ws, 0) == Response(404, "Not Found\n")
  {
    var mux := new Mux();
    var _, ws' := mux.ServeHTTP(0, r, Fresh);
    NotFoundServes(0, 0, CancelRequest(r), Fresh);
    assert "" + "Not Found\n" == "Not Found\n";
    ws := ws';
  }

  /**
   * The default not-found handler is created on the first unmatched request
   * and keeps that request's writer: a second unmatched request, on another
   * writer, gets nothing written, and a second "Not Found" goes to the first
   * writer (sdk/HTTP_mux.go:66-71).
   */
  method NotFoundKeepsFirstWriter(r1: Request, r2: Request) returns (ws: Writers)
    ensures Current(ws, 1) == Response(404, "Not Found\nNot Found\n")
    ensures Current(ws, 2) == Response(0, "")
  {
    var mux := new Mux();
    var _, ws1 := mux.ServeHTTP(1, r1, Fresh);
    NotFoundOnce(CancelRequest(r1));
    var _, ws2 := mux.ServeHTTP(2, r2, ws1);
    NotFoundTwice(CancelRequest(r2), ws1);
    ws := ws2;
  }

  /** The first "Not Found" on writer 1. */
  lemma NotFoundOnce(r: Request)
    ensures Serve(NotFound(1), 1, r, Fresh) == (r, Fresh[1 := Response(404, "Not Found\n")])
  {
    NotFoundServes(1, 1, r, Fresh);
    assert "" + "Not Found\n" == "Not Found\n";
  }

  /** A second "Not Found", served on writer 2, lands on writer 1 again. */
  lemma NotFoundTwice(r: Request, ws: Writers)
    requires ws == Fresh[1 := Response(404, "Not Found\n")]
    ensures var ws' := Serve(NotFound(1), 2, r, ws).1;
      Current(ws', 1) == Response(404, "Not Found\nNot Found\n") && Current(ws', 2) == Response(0, "")
  {
    assert "Not Found\n" + "Not Found" + "\n" == "Not Found\nNot Found\n";
  }

  /** sdk/HTTP_mux_test.go:86-95: a not-found handler set by the user is served instead. */
  method CustomNotFound(r: Request) returns (ws: Writers)
    ensures Current(ws, 0) == Response(500, "Internal Server Error\n")
  {
    var mux := new Mux();
    mux.notFoundHandler := Write(500, "Internal Server Error\n");
    var _, ws' := mux.ServeHTTP(0, r, Fresh);
    WriteServes(500, "Internal Server Error\n", 0, CancelRequest(r), Fresh);
    assert "" + "Internal Server Error\n" == "Internal Server Error\n";
    ws := ws';
  }

  /** Testing a group of mocks leaves the mocks alone. */
  lemma MocksTestAll(ms: seq<Matcher>)
    requires forall k :: 0 <= k < |ms| ==> ms[k].Mock?
    ensures TestAll(ms) == ms
  {
  }

  /** The Or of two different passing mocks keeps both, and its priority is their mean. */
  lemma OrOfMocks(a: real, b: real)
    requires a != b
    ensures var ms := [Mock(a, true, true), Mock(b, true, true)];
      && KeepLast(TestAll(ms), KeyOf) == ms
      && Test(Or(0.0, ms)) == (true, Or((a + b) / 2.0, ms))
  {
    var ms := [Mock(a, true, true), Mock(b, true, true)];
    MocksTestAll(ms);
    assert !LaterDup(ms, 0, KeyOf);
    assert ms[1..] == [ms[1]];
    var m := Or(0.0, ms);
    assert OrTestFrom(m, 0, false, 0.0, []) == OrTestFrom(m, 1, true, 0.0 + a, [] + [ms[0]]);
    assert [] + [ms[0]] == [ms[0]];
    assert OrTestFrom(m, 1, true, 0.0 + a, [ms[0]]) == OrTestFrom(m, 2, true, 0.0 + a + b, [ms[0]] + [ms[1]]);
    assert [ms[0]] + [ms[1]] == ms;
  }

  /** The Or of the same passing mock twice keeps one of them, and its priority is 0. */
  lemma OrOfSameMock()
    ensures var ms := [Mock(0.0, true, true), Mock(0.0, true, true)];
      && KeepLast(TestAll(ms), KeyOf) == [ms[0]]
      && Test(Or(0.0, [ms[0]])) == (true, Or(0.0, [ms[0]]))
  {
    var ms := [Mock(0.0, true, true), Mock(0.0, true, true)];
    MocksTestAll(ms);
    assert LaterDup(ms, 0, KeyOf);
    assert ms[1..] == [ms[1]];
    var m := Or(0.0, [ms[0]]);
    assert OrTestFrom(m, 0, false, 0.0, []) == OrTestFrom(m, 1, true, 0.0 + 0.0, [] + [ms[0]]);
    assert [] + [ms[0]] == [ms[0]];
  }

  /** Registering into no entries gives the one entry. */
  lemma InsertFirst(e: Entry)
    requires !e.matcher.Nil?
    ensures StableInsert([], e) == [e]
  {
    assert InsertIndex([], EntryPriority(e), 0) == 0;
  }

  /** An entry of higher priority goes before the one registered earlier. */
  lemma InsertAhead(ea: Entry, eb: Entry)
    requires !ea.matcher.Nil? && !eb.matcher.Nil? && EntryPriority(ea) < EntryPriority(eb)
    ensures StableInsert([ea], eb) == [eb, ea]
  {
    assert InsertIndex([ea], EntryPriority(eb), 1) == 0;
  }

  /** The two Or matchers of the mock test have different keys. */
  lemma MockKeysDiffer(ea: Entry, b: Matcher)
    requires ea.matcher == Or(0.0, [Mock(0.0, true, true)])
    requires b == Or(0.15, [Mock(0.1, true, true), Mock(0.2, true, true)])
    ensures !HasKey([ea], KeyOf(b))
  {
    assert KeyOf(b).p != KeyOf(ea.matcher).p;
  }

  /** The first registration of the mock test: the Or of the same mock twice. */
  method RegisterSameMock(mux: Mux) returns (a: Matcher)
    requires mux.Valid() && mux.entries == [] && mux.middleware.None? && mux.notFoundHandler.NilHandler?
    modifies mux
    ensures mux.Valid() && mux.middleware.None? && mux.notFoundHandler.NilHandler?
    ensures a == Or(0.0, [Mock(0.0, true, true)])
    ensures mux.entries == [Entry(Write(200, "OK"), a)]
  {
    var m0 := Mock(0.0, true, true);
    OrOfSameMock();
    a := MakeOr(0.0, [m0, m0]);
    mux.With(Write(200, "OK"), a);
    InsertFirst(Entry(Write(200, "OK"), a));
  }

  /** The second registration of the mock test: the Or of two different mocks goes first. */
  method RegisterTwoMocks(mux: Mux, a: Matcher) returns (b: Matcher)
    requires a == Or(0.0, [Mock(0.0, true, true)])
    requires mux.Valid() && mux.entries == [Entry(Write(200, "OK"), a)]
    requires mux.middleware.None? && mux.notFoundHandler.NilHandler?
    modifies mux
    ensures mux.middleware.None? && mux.notFoundHandler.NilHandler?
    ensures b == Or(0.15, [Mock(0.1, true, true), Mock(0.2, true, true)])
    ensures mux.entries == [Entry(Write(200, "OK"), b), Entry(Write(200, "OK"), a)]
  {
    var ea := Entry(Write(200, "OK"), a);
    OrOfMocks(0.1, 0.2);
    var b0 := MakeOr(0.0, [Mock(0.1, true, true), Mock(0.2, true, true)]);
    b := Or(0.15, [Mock(0.1, true, true), Mock(0.2, true, true)]);
    MockKeysDiffer(ea, b);
    mux.With(Write(200, "OK"), b0);
    InsertAhead(ea, Entry(Write(200, "OK"), b));
  }

  /** The entries after the two registrations of the mock test. */
  method RegisterMocks(mux: Mux) returns (a: Matcher, b: Matcher)
    requires mux.Valid() && mux.entries == [] && mux.middleware.None? && mux.notFoundHandler.NilHandler?
    modifies mux
    ensures mux.middleware.None? && mux.notFoundHandler.NilHandler?
    ensures a == Or(0.0, [Mock(0.0, true, true)])
    ensures b == Or(0.15, [Mock(0.1, true, true), Mock(0.2, true, true)])
    ensures mux.entries == [Entry(Write(200, "OK"), b), Entry(Write(200, "OK"), a)]
  {
    a := RegisterSameMock(mux);
    b := RegisterTwoMocks(mux, a);
  }

  /**
   * sdk/HTTP_mux_test.go:97-110: two Or matchers of passing mocks; the one of
   * priority 0.15 (the mean of 0.1 and 0.2) goes first, ahead of the one of
   * priority 0 registered before it, and the request is served.
   */
  method MockRoutes(r: Request) returns (ws: Writers, first: real)
    ensures Current(ws, 0) == Response(200, "OK")
    ensures first == 0.15
  {
    var mux := new Mux();
    var a, b := RegisterMocks(mux);
    first := Priority(mux.entries[0].matcher);
    var _, ws' := mux.ServeHTTP(0, r, Fresh);
    assert Match(b, r) == (true, r) by {
      assert OrMatchFrom(b, 1, true, r) == (true, r);
    }
    assert FirstMatch(mux.entries, 0, r) == (0, r);
    WriteServes(200, "OK", 0, r, Fresh);
    assert "" + "OK" == "OK";
    ws := ws';
  }
}
