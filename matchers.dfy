/**
 * The matcher algebra of sdk/HTTP_mux.go:120-529: Mock, Or, And, Methods
 * and Pattern matchers with their `Test`, `Priority` and `Match`.
 *
 * Go's matchers are pointers whose `Test` updates fields in place; here a
 * matcher is a value and `Test` returns the updated value beside its verdict.
 * `Nil` stands for a nil `MuxMatcher` interface.
 */
module Matchers {
  import opened Text
  import opened Requests
  import opened Patterns
  import opened Collections

  /** The `parseURI` closure a pattern holds after its first `Test`. */
  datatype Compiled =
    | Unparsed                   // nil: `Test` has not built it (or rejected the pattern)
    | Exact                      // `uri == m.Pattern`
    | Keyed(keys: seq<Token>)    // the token walk over `keys`

  datatype Matcher =
    | Nil
    | Mock(p: real, test: bool, matches: bool)
    | Or(p: real, muxes: seq<Matcher>)
    | And(p: real, muxes: seq<Matcher>)
    | Methods(p: real, methods: seq<string>)
    | Pattern(p: real, pattern: string, start: string, end: string, caseSensitive: bool,
              parseURI: Compiled, tested: bool, testVal: bool)

  const MultiplierExactPattern: int := 10
  const MultiplierNKeys: int := 2

  /** `Priority()`: every variant returns its `P` field. */
  function Priority(m: Matcher): real
    requires !m.Nil?
  {
    m.p
  }

  /**
   * The shapes `Test` can run on without a nil dereference or a 0/0: an Or
   * has no nil child and, when its priority is left at 0, at least one child.
   */
  predicate WF(m: Matcher)
    decreases m
  {
    match m
    case Or(p, ms) =>
      (p != 0.0 || |ms| > 0) && forall k :: 0 <= k < |ms| ==> !ms[k].Nil? && WF(ms[k])
    case And(_, ms) =>
      forall k :: 0 <= k < |ms| ==> WF(ms[k])
    case _ => true
  }

  /** Sum of the priorities of the non-nil matchers of `ms` from position `i` on. */
  function SumFrom(ms: seq<Matcher>, i: nat): real
    requires i <= |ms|
    decreases |ms| - i
  {
    if i == |ms| then 0.0
    else (if ms[i].Nil? then 0.0 else Priority(ms[i])) + SumFrom(ms, i + 1)
  }

  // ---------------------------------------------------------------------------
  // Methods (sdk/HTTP_mux.go:259-320)
  // ---------------------------------------------------------------------------

  /** The nine method names of `net/http`: section 9 of RFC 9110 plus PATCH (RFC 5789). */
  predicate IsVerb(s: string) {
    s in {"GET", "HEAD", "POST", "PUT", "PATCH", "DELETE", "CONNECT", "OPTIONS", "TRACE"}
  }

  /** The priority of an explicit list of `n` methods: `10 - n` below ten methods, else 1. */
  function CountPriority(n: nat): real {
    if (n as real) < 10.0 then 10.0 - n as real else 1.0
  }

  /** The loop of `muxMatcherMethods.Test` from position `i`, with the priority `p` so far. */
  function MethodsScan(ms: seq<string>, i: nat, p: real): (bool, real)
    requires i <= |ms|
    decreases |ms| - i
  {
    if i == |ms| then (true, p)
    else if ms[i] == "*" then (true, 0.0)
    else if IsVerb(ms[i]) then MethodsScan(ms, i + 1, CountPriority(|ms|))
    else (false, p)
  }

  /** `muxMatcherMethods.Test`: the verdict and the new priority. */
  function MethodsTest(ms: seq<string>, p: real): (bool, real) {
    if |ms| < 1 then (false, p) else MethodsScan(ms, 0, p)
  }

  /** `muxMatcherMethods.Match` scans for `*` or the request's method. */
  function MethodsMatchFrom(ms: seq<string>, i: nat, verb: string): (b: bool)
    requires i <= |ms|
    ensures b <==> exists k :: i <= k < |ms| && (ms[k] == "*" || ms[k] == verb)
    decreases |ms| - i
  {
    if i == |ms| then false
    else if ms[i] == "*" || ms[i] == verb then true
    else MethodsMatchFrom(ms, i + 1, verb)
  }

  /** Method names compare case-sensitively, as section 9.1 of RFC 9110 requires. */
  function MethodsMatch(ms: seq<string>, verb: string): (b: bool)
    ensures b <==> "*" in ms || verb in ms
  {
    MethodsMatchFrom(ms, 0, verb)
  }

  // ---------------------------------------------------------------------------
  // Pattern (sdk/HTTP_mux.go:326-529)
  // ---------------------------------------------------------------------------

  /** `muxMatcherPattern.Test`: memoised; compiles the pattern on its first call. */
  function PatternTest(m: Matcher): (bool, Matcher)
    requires m.Pattern?
  {
    if m.tested then (m.testVal, m)
    else if |m.pattern| < 1 then (false, m.(tested := true, testVal := false))
    else
      var pattern := if m.caseSensitive then m.pattern else Lower(m.pattern);
      var start := if m.caseSensitive then m.start else Lower(m.start);
      var end := if m.caseSensitive then m.end else Lower(m.end);
      var sc := Parse(pattern, start, end);
      if |sc.keys| < 1 then
        (true, m.(pattern := pattern, start := "", end := "",
                  p := (|pattern| * MultiplierExactPattern) as real,
                  parseURI := Exact, tested := true, testVal := true))
      else
        var p := if m.p == 0.0 then (|sc.scaffold| * MultiplierExactPattern + |sc.keys| * MultiplierNKeys) as real else m.p;
        (true, m.(pattern := pattern, start := start, end := end, p := p,
                  parseURI := Keyed(sc.keys), tested := true, testVal := true))
  }

  /** The path a pattern compares against: lower-cased unless case-sensitive. */
  function PathFor(m: Matcher, r: Request): string
    requires m.Pattern?
  {
    if m.caseSensitive then r.path else Lower(r.path)
  }

  /** `muxMatcherPattern.Match`: on success a keyed pattern attaches its captures to the request. */
  function PatternMatch(m: Matcher, r: Request): (bool, Request)
    requires m.Pattern?
  {
    var uri := PathFor(m, r);
    match m.parseURI
    case Unparsed => (false, r)
    case Exact => (uri == m.pattern, r)
    case Keyed(keys) =>
      var w := Extract(keys, m.end, uri);
      if w.ok && |w.args| > 0 then (true, WithArgs(r, w.args)) else (w.ok, r)
  }

  // ---------------------------------------------------------------------------
  // Test and Match over the whole algebra
  // ---------------------------------------------------------------------------

  /** `Test()`: the verdict and the matcher as `Test` leaves it. */
  function Test(m: Matcher): (bool, Matcher)
    requires !m.Nil? && WF(m)
    decreases m, 1
  {
    match m
    case Mock(_, t, _) => (t, m)
    case Or(p, ms) =>
      var (ok, sum, ms') := OrTestFrom(m, 0, false, 0.0, []);
      (ok, Or(if p == 0.0 then sum / (|ms| as real) else p, ms'))
    case And(p, ms) =>
      var (ok, sum, ms') := AndTestFrom(m, 0, false, 0.0, []);
      (ok, And(if p == 0.0 then sum else p, ms'))
    case Methods(p, ms) =>
      var (ok, p') := MethodsTest(ms, p);
      (ok, Methods(p', ms))
    case Pattern(_, _, _, _, _, _, _, _) => PatternTest(m)
  }

  /**
   * The loop of `muxMatcherOr.Test` (sdk/HTTP_mux.go:173-185) from child `i`:
   * each child's priority is read before it is tested, and once one child
   * has passed the rest are not tested.
   */
  function OrTestFrom(m: Matcher, i: nat, found: bool, p: real, done: seq<Matcher>): (bool, real, seq<Matcher>)
    requires m.Or? && WF(m) && i <= |m.muxes|
    decreases m, 0, |m.muxes| - i
  {
    if i == |m.muxes| then (found, p, done)
    else
      var c := m.muxes[i];
      var p' := p + Priority(c);
      if found then OrTestFrom(m, i + 1, true, p', done + [c])
      else
        var (v, c') := Test(c);
        OrTestFrom(m, i + 1, v, p', done + [c'])
  }

  /**
   * The loop of `muxMatcherAnd.Test` (sdk/HTTP_mux.go:216-235) from child
   * `i`: nil children are skipped, the verdict starts true only at a non-nil
   * child 0, a child is tested only while the verdict holds, and its
   * priority is read after that.
   */
  function AndTestFrom(m: Matcher, i: nat, found: bool, p: real, done: seq<Matcher>): (bool, real, seq<Matcher>)
    requires m.And? && WF(m) && i <= |m.muxes|
    decreases m, 0, |m.muxes| - i
  {
    if i == |m.muxes| then (found, p, done)
    else
      var c := m.muxes[i];
      if c.Nil? then AndTestFrom(m, i + 1, found, p, done + [c])
      else
        var match0 := if i == 0 then true else found;
        if match0 then
          var (v, c') := Test(c);
          AndTestFrom(m, i + 1, v, p + Priority(c'), done + [c'])
        else
          AndTestFrom(m, i + 1, false, p + Priority(c), done + [c])
  }

  /** `Match(r)`: the verdict and the request as the matcher leaves it. */
  function Match(m: Matcher, r: Request): (bool, Request)
    requires !m.Nil?
    decreases m, 1
  {
    match m
    case Mock(_, _, b) => (b, r)
    case Or(_, _) => OrMatchFrom(m, 0, false, r)
    case And(_, _) => AndMatchFrom(m, 0, false, r)
    case Methods(_, ms) => (MethodsMatch(ms, r.verb), r)
    case Pattern(_, _, _, _, _, _, _, _) => PatternMatch(m, r)
  }

  /** The loop of `muxMatcherOr.Match` (sdk/HTTP_mux.go:187-197): every non-nil child is asked. */
  function OrMatchFrom(m: Matcher, i: nat, found: bool, r: Request): (bool, Request)
    requires m.Or? && i <= |m.muxes|
    decreases m, 0, |m.muxes| - i
  {
    if i == |m.muxes| then (found, r)
    else if m.muxes[i].Nil? then OrMatchFrom(m, i + 1, found, r)
    else
      var (v, r') := Match(m.muxes[i], r);
      OrMatchFrom(m, i + 1, found || v, r')
  }

  /** The loop of `muxMatcherAnd.Match` (sdk/HTTP_mux.go:237-251): stops asking after the first failure. */
  function AndMatchFrom(m: Matcher, i: nat, found: bool, r: Request): (bool, Request)
    requires m.And? && i <= |m.muxes|
    decreases m, 0, |m.muxes| - i
  {
    if i == |m.muxes| then (found, r)
    else if m.muxes[i].Nil? then AndMatchFrom(m, i + 1, found, r)
    else
      var match0 := if i == 0 then true else found;
      if match0 then
        var (v, r') := Match(m.muxes[i], r);
        AndMatchFrom(m, i + 1, v, r')
      else AndMatchFrom(m, i + 1, false, r)
  }

  // ---------------------------------------------------------------------------
  // Identity for de-duplication
  // ---------------------------------------------------------------------------

  /**
   * The exported fields `JSON.Marshal` serialises. Or and And have the same
   * field names, so they share one shape; unexported pattern state
   * (`parseURI`, `tested`, `testVal`) is not part of it.
   */
  datatype Key =
    | NullKey
    | MockKey(p: real, test: bool, matches: bool)
    | GroupKey(p: real, members: seq<Key>)
    | MethodsKey(p: real, methods: seq<string>)
    | PatternKey(p: real, pattern: string, start: string, end: string, caseSensitive: bool)

  function KeyOf(m: Matcher): Key
    decreases m, 1
  {
    match m
    case Nil => NullKey
    case Mock(p, t, b) => MockKey(p, t, b)
    case Or(p, _) => GroupKey(p, KeysFrom(m, 0))
    case And(p, _) => GroupKey(p, KeysFrom(m, 0))
    case Methods(p, ms) => MethodsKey(p, ms)
    case Pattern(p, pat, s, e, cs, _, _, _) => PatternKey(p, pat, s, e, cs)
  }

  function KeysFrom(m: Matcher, i: nat): (ks: seq<Key>)
    requires (m.Or? || m.And?) && i <= |m.muxes|
    ensures |ks| == |m.muxes| - i
    decreases m, 0, |m.muxes| - i
  {
    if i == |m.muxes| then [] else [KeyOf(m.muxes[i])] + KeysFrom(m, i + 1)
  }
}
