/**
 * What the matcher algebra promises: the verdicts and priorities of Or,
 * And and Methods, the exact and keyed cases of Pattern, and that testing
 * a matcher a second time changes nothing.
 */
module MatcherLaws {
  import opened Wrappers
  import opened Text
  import opened Requests
  import opened Patterns
  import opened Matchers

  // ---------------------------------------------------------------------------
  // Methods
  // ---------------------------------------------------------------------------

  /** No `*` occurs before position `j`. */
  ghost predicate NoStarBefore(ms: seq<string>, j: nat)
    requires j <= |ms|
  {
    forall h :: 0 <= h < j ==> ms[h] != "*"
  }

  /** Every token up to the first `*` is `*` or one of the nine methods. */
  ghost predicate ValidUpToStar(ms: seq<string>) {
    forall j :: 0 <= j < |ms| && NoStarBefore(ms, j) ==> ms[j] == "*" || IsVerb(ms[j])
  }

  lemma {:induction false} MethodsScanSpec(ms: seq<string>, i: nat, p: real)
    requires i <= |ms| && NoStarBefore(ms, i)
    requires forall j :: 0 <= j < i ==> IsVerb(ms[j])
    requires i > 0 ==> p == CountPriority(|ms|)
    ensures var (ok, p') := MethodsScan(ms, i, p);
      && (ok <==> ValidUpToStar(ms))
      && (ok && "*" in ms ==> p' == 0.0)
      && (ok && "*" !in ms && |ms| > 0 ==> p' == CountPriority(|ms|))
    decreases |ms| - i
  {
    if i == |ms| {
    } else if ms[i] == "*" {
      assert forall j :: i < j < |ms| ==> !NoStarBefore(ms, j);
    } else if IsVerb(ms[i]) {
      MethodsScanSpec(ms, i + 1, CountPriority(|ms|));
    } else {
      assert !(ms[i] == "*" || IsVerb(ms[i]));
    }
  }

  /**
   * `muxMatcherMethods.Test` (sdk/HTTP_mux.go:274-305): it fails on an empty
   * list and on any token other than the nine methods met before a `*`; on
   * success the priority is 0 when a `*` is present and otherwise
   * `10 - n` (at least 1) for `n` methods, whatever priority was given.
   */
  lemma MethodsTestSpec(ms: seq<string>, p: real)
    ensures var (ok, p') := MethodsTest(ms, p);
      && (ok <==> |ms| > 0 && ValidUpToStar(ms))
      && (ok && "*" in ms ==> p' == 0.0)
      && (ok && "*" !in ms ==> p' == CountPriority(|ms|))
  {
    if |ms| > 0 {
      MethodsScanSpec(ms, 0, p);
    }
  }

  /** Re-testing a Methods matcher gives the same verdict and priority as the first test. */
  lemma MethodsTestIdempotent(ms: seq<string>, p: real)
    ensures MethodsTest(ms, MethodsTest(ms, p).1) == MethodsTest(ms, p)
  {
  }

  // ---------------------------------------------------------------------------
  // Or and And: verdicts and priorities of Test
  // ---------------------------------------------------------------------------

  lemma {:induction false} OrTestFromSpec(m: Matcher, i: nat, found: bool, p: real, done: seq<Matcher>)
    requires m.Or? && WF(m) && i <= |m.muxes|
    ensures var (ok, sum, ms') := OrTestFrom(m, i, found, p, done);
      && (ok <==> found || exists k :: i <= k < |m.muxes| && Test(m.muxes[k]).0)
      && sum == p + SumFrom(m.muxes, i)
      && |ms'| == |done| + |m.muxes| - i
    decreases |m.muxes| - i
  {
    if i < |m.muxes| {
      var c := m.muxes[i];
      if found {
        OrTestFromSpec(m, i + 1, true, p + Priority(c), done + [c]);
      } else {
        var (v, c') := Test(c);
        OrTestFromSpec(m, i + 1, v, p + Priority(c), done + [c']);
      }
    }
  }

  /**
   * `muxMatcherOr.Test` (sdk/HTTP_mux.go:173-185): it passes exactly when
   * some child passes, and a priority left at 0 becomes the mean of the
   * children's priorities.
   */
  lemma OrTestSpec(m: Matcher)
    requires m.Or? && WF(m)
    ensures var (ok, m') := Test(m);
      && (ok <==> exists k :: 0 <= k < |m.muxes| && Test(m.muxes[k]).0)
      && m'.Or? && |m'.muxes| == |m.muxes|
      && m'.p == (if m.p == 0.0 then SumFrom(m.muxes, 0) / (|m.muxes| as real) else m.p)
  {
    var r := OrTestFrom(m, 0, false, 0.0, []);
    OrTestFromSpec(m, 0, false, 0.0, []);
    assert Test(m) == (r.0, Or(if m.p == 0.0 then r.1 / (|m.muxes| as real) else m.p, r.2));
  }

  lemma {:induction false} AndTestFromSpec(m: Matcher, i: nat, found: bool, p: real, done: seq<Matcher>)
    requires m.And? && WF(m) && 0 < i <= |m.muxes|
    ensures var (ok, _, ms') := AndTestFrom(m, i, found, p, done);
      && (ok <==> found && forall k :: i <= k < |m.muxes| && !m.muxes[k].Nil? ==> Test(m.muxes[k]).0)
      && |ms'| == |done| + |m.muxes| - i
    decreases |m.muxes| - i
  {
    if i < |m.muxes| {
      var c := m.muxes[i];
      if c.Nil? {
        AndTestFromSpec(m, i + 1, found, p, done + [c]);
      } else if found {
        var (v, c') := Test(c);
        AndTestFromSpec(m, i + 1, v, p + Priority(c'), done + [c']);
      } else {
        AndTestFromSpec(m, i + 1, false, p + Priority(c), done + [c]);
      }
    }
  }

  /**
   * `muxMatcherAnd.Test` (sdk/HTTP_mux.go:216-235): it passes exactly when
   * there is a child, child 0 is not nil, and every non-nil child passes.
   */
  lemma AndTestSpec(m: Matcher)
    requires m.And? && WF(m)
    ensures var (ok, m') := Test(m);
      && (ok <==> |m.muxes| > 0 && !m.muxes[0].Nil? &&
                  forall k :: 0 <= k < |m.muxes| && !m.muxes[k].Nil? ==> Test(m.muxes[k]).0)
      && m'.And? && |m'.muxes| == |m.muxes|
  {
    var ms := m.muxes;
    if |ms| > 0 {
      var c := ms[0];
      if c.Nil? {
        AndTestFromSpec(m, 1, false, 0.0, [] + [c]);
      } else {
        var (v, c') := Test(c);
        AndTestFromSpec(m, 1, v, 0.0 + Priority(c'), [] + [c']);
      }
    }
  }

  // ---------------------------------------------------------------------------
  // Match depends on the method and the path only
  // ---------------------------------------------------------------------------

  /** Two requests with the same method and path. */
  predicate SameRoute(r: Request, r2: Request) {
    r.verb == r2.verb && r.path == r2.path
  }

  /**
   * A matcher's verdict depends only on the request's method and path, and
   * the request it hands back keeps its method, path and cancellation.
   */
  lemma {:induction false} MatchRoute(m: Matcher, r: Request, r2: Request)
    requires !m.Nil? && SameRoute(r, r2)
    ensures Match(m, r).0 == Match(m, r2).0
    ensures SameRoute(Match(m, r).1, r) && Match(m, r).1.cancelled == r.cancelled
    decreases m, 1
  {
    match m
    case Or(_, _) => OrMatchRoute(m, 0, false, r, r2);
    case And(_, _) => AndMatchRoute(m, 0, false, r, r2);
    case _ =>
  }

  lemma {:induction false} OrMatchRoute(m: Matcher, i: nat, found: bool, r: Request, r2: Request)
    requires m.Or? && i <= |m.muxes| && SameRoute(r, r2)
    ensures OrMatchFrom(m, i, found, r).0 == OrMatchFrom(m, i, found, r2).0
    ensures SameRoute(OrMatchFrom(m, i, found, r).1, r) && OrMatchFrom(m, i, found, r).1.cancelled == r.cancelled
    decreases m, 0, |m.muxes| - i
  {
    if i < |m.muxes| {
      if m.muxes[i].Nil? {
        OrMatchRoute(m, i + 1, found, r, r2);
      } else {
        MatchRoute(m.muxes[i], r, r2);
        var (v, r') := Match(m.muxes[i], r);
        var (_, r2') := Match(m.muxes[i], r2);
        MatchRoute(m.muxes[i], r2, r);
        OrMatchRoute(m, i + 1, found || v, r', r2');
      }
    }
  }

  lemma {:induction false} AndMatchRoute(m: Matcher, i: nat, found: bool, r: Request, r2: Request)
    requires m.And? && i <= |m.muxes| && SameRoute(r, r2)
    ensures AndMatchFrom(m, i, found, r).0 == AndMatchFrom(m, i, found, r2).0
    ensures SameRoute(AndMatchFrom(m, i, found, r).1, r) && AndMatchFrom(m, i, found, r).1.cancelled == r.cancelled
    decreases m, 0, |m.muxes| - i
  {
    if i < |m.muxes| {
      if m.muxes[i].Nil? {
        AndMatchRoute(m, i + 1, found, r, r2);
      } else if i == 0 || found {
        MatchRoute(m.muxes[i], r, r2);
        var (v, r') := Match(m.muxes[i], r);
        var (_, r2') := Match(m.muxes[i], r2);
        MatchRoute(m.muxes[i], r2, r);
        AndMatchRoute(m, i + 1, v, r', r2');
      } else {
        AndMatchRoute(m, i + 1, false, r, r2);
      }
    }
  }

  // ---------------------------------------------------------------------------
  // Or and And: verdicts of Match
  // ---------------------------------------------------------------------------

  lemma {:induction false} OrMatchFromSpec(m: Matcher, i: nat, found: bool, r: Request, r0: Request)
    requires m.Or? && i <= |m.muxes| && SameRoute(r, r0)
    ensures OrMatchFrom(m, i, found, r).0 <==>
      found || exists k :: i <= k < |m.muxes| && !m.muxes[k].Nil? && Match(m.muxes[k], r0).0
    decreases |m.muxes| - i
  {
    if i < |m.muxes| {
      if m.muxes[i].Nil? {
        OrMatchFromSpec(m, i + 1, found, r, r0);
      } else {
        var (v, r') := Match(m.muxes[i], r);
        MatchRoute(m.muxes[i], r, r0);
        OrMatchFromSpec(m, i + 1, found || v, r', r0);
      }
    }
  }

  /**
   * `muxMatcherOr.Match` (sdk/HTTP_mux.go:187-197): it matches exactly when
   * some non-nil child matches the request.
   */
  lemma OrMatchSpec(m: Matcher, r: Request)
    requires m.Or?
    ensures Match(m, r).0 <==> exists k :: 0 <= k < |m.muxes| && !m.muxes[k].Nil? && Match(m.muxes[k], r).0
  {
    OrMatchFromSpec(m, 0, false, r, r);
  }

  lemma {:induction false} AndMatchFromSpec(m: Matcher, i: nat, found: bool, r: Request, r0: Request)
    requires m.And? && 0 < i <= |m.muxes| && SameRoute(r, r0)
    ensures AndMatchFrom(m, i, found, r).0 <==>
      found && forall k :: i <= k < |m.muxes| && !m.muxes[k].Nil? ==> Match(m.muxes[k], r0).0
    decreases |m.muxes| - i
  {
    if i < |m.muxes| {
      if m.muxes[i].Nil? {
        AndMatchFromSpec(m, i + 1, found, r, r0);
      } else if found {
        var (v, r') := Match(m.muxes[i], r);
        MatchRoute(m.muxes[i], r, r0);
        AndMatchFromSpec(m, i + 1, v, r', r0);
      } else {
        AndMatchFromSpec(m, i + 1, false, r, r0);
      }
    }
  }

  /**
   * `muxMatcherAnd.Match` (sdk/HTTP_mux.go:237-251): it matches exactly when
   * there is a child, child 0 is not nil, and every non-nil child matches.
   */
  lemma AndMatchSpec(m: Matcher, r: Request)
    requires m.And?
    ensures Match(m, r).0 <==>
      |m.muxes| > 0 && !m.muxes[0].Nil? &&
      forall k :: 0 <= k < |m.muxes| && !m.muxes[k].Nil? ==> Match(m.muxes[k], r).0
  {
    var ms := m.muxes;
    if |ms| > 0 {
      if ms[0].Nil? {
        AndMatchFromSpec(m, 1, false, r, r);
      } else {
        var (v, r') := Match(ms[0], r);
        MatchRoute(ms[0], r, r);
        AndMatchFromSpec(m, 1, v, r', r);
      }
    }
  }

  // ---------------------------------------------------------------------------
  // Or and And: the request Match hands back
  // ---------------------------------------------------------------------------

  /** What matching reads of a request: its method and path. */
  function Route(r: Request): Request {
    Request(r.verb, r.path, None, false)
  }

  /** `r` with the named arguments `a` attached through `set`, or `r` itself when there are none. */
  function Attached(r: Request, a: Option<Args>): Request {
    if a.Some? then WithArgs(r, a.value) else r
  }

  /** Two attachments in turn: a later `set` shadows an earlier one. */
  function Later(a: Option<Args>, b: Option<Args>): Option<Args> {
    if b.Some? then b else a
  }

  /**
   * The named arguments `Match` attaches on the route `q`, if any: a keyed
   * pattern attaches its captures when its walk succeeds; an Or, the
   * arguments of the last of its non-nil children that attaches some; an
   * And, the same among the children it asks, which are those up to and
   * including the first that does not match (none when child 0 is nil).
   */
  ghost function Attach(m: Matcher, q: Request): Option<Args>
    requires !m.Nil?
    decreases m, 1
  {
    match m
    case Or(_, ms) => LastAttach(m, |ms|, q)
    case And(_, ms) => if |ms| == 0 || ms[0].Nil? then None else LastAttach(m, Asked(m, q), q)
    case Pattern(_, _, _, _, _, parseURI, _, _) =>
      if parseURI.Keyed? then
        var w := Extract(parseURI.keys, m.end, PathFor(m, q));
        if w.ok && |w.args| > 0 then Some(w.args) else None
      else None
    case _ => None
  }

  /** The arguments attached by the last of the first `n` children that attaches some. */
  ghost function LastAttach(m: Matcher, n: nat, q: Request): Option<Args>
    requires (m.Or? || m.And?) && n <= |m.muxes|
    decreases m, 0, n
  {
    if n == 0 then None
    else if m.muxes[n - 1].Nil? then LastAttach(m, n - 1, q)
    else Later(LastAttach(m, n - 1, q), Attach(m.muxes[n - 1], q))
  }

  /** The first non-nil child of an And from position `i` that does not match `q`, or the number of children. */
  ghost function FailFrom(m: Matcher, i: nat, q: Request): (k: nat)
    requires m.And? && i <= |m.muxes|
    ensures i <= k <= |m.muxes|
    decreases |m.muxes| - i
  {
    if i == |m.muxes| then i
    else if !m.muxes[i].Nil? && !Match(m.muxes[i], q).0 then i
    else FailFrom(m, i + 1, q)
  }

  /** How many children of an And (child 0 being non-nil) its `Match` asks. */
  ghost function Asked(m: Matcher, q: Request): nat
    requires m.And?
  {
    var f := FailFrom(m, 0, q);
    if f == |m.muxes| then f else f + 1
  }

  /** `FailFrom` is the first failing child: every non-nil child before it matches. */
  lemma {:induction false} FailFromSpec(m: Matcher, i: nat, q: Request)
    requires m.And? && i <= |m.muxes|
    ensures var k := FailFrom(m, i, q);
      && (forall j :: i <= j < k && !m.muxes[j].Nil? ==> Match(m.muxes[j], q).0)
      && (k < |m.muxes| ==> !m.muxes[k].Nil? && !Match(m.muxes[k], q).0)
    decreases |m.muxes| - i
  {
    if i < |m.muxes| && (m.muxes[i].Nil? || Match(m.muxes[i], q).0) {
      FailFromSpec(m, i + 1, q);
    }
  }

  /** When none of the first `n` children attaches arguments, nothing is attached. */
  lemma {:induction false} LastAttachNone(m: Matcher, n: nat, q: Request)
    requires (m.Or? || m.And?) && n <= |m.muxes|
    requires forall k :: 0 <= k < n && !m.muxes[k].Nil? ==> Attach(m.muxes[k], q).None?
    ensures LastAttach(m, n, q).None?
  {
    if n > 0 {
      LastAttachNone(m, n - 1, q);
    }
  }

  /** When child `j` is the last of the first `n` that attaches arguments, its arguments are attached. */
  lemma {:induction false} LastAttachOf(m: Matcher, n: nat, q: Request, j: nat)
    requires (m.Or? || m.And?) && j < n <= |m.muxes|
    requires !m.muxes[j].Nil? && Attach(m.muxes[j], q).Some?
    requires forall k :: j < k < n && !m.muxes[k].Nil? ==> Attach(m.muxes[k], q).None?
    ensures LastAttach(m, n, q) == Attach(m.muxes[j], q)
  {
    if n - 1 > j {
      LastAttachOf(m, n - 1, q, j);
    }
  }

  lemma AttachedLater(r: Request, a: Option<Args>, b: Option<Args>)
    ensures Attached(Attached(r, a), b) == Attached(r, Later(a, b))
    ensures Route(Attached(r, a)) == Route(r)
  {
  }

  /**
   * The request `Match` hands back is the request it was given with the
   * arguments `Attach` names attached, and nothing else changed: a matcher
   * that attaches nothing returns the request as it was.
   */
  lemma {:induction false} MatchAttaches(m: Matcher, r: Request)
    requires !m.Nil?
    ensures Match(m, r).1 == Attached(r, Attach(m, Route(r)))
    decreases m, 1
  {
    var q := Route(r);
    match m
    case Or(_, _) =>
      OrMatchFromAttaches(m, 0, false, r, r);
    case And(_, ms) =>
      if |ms| > 0 {
        if ms[0].Nil? {
          AndSkips(m, 1, r);
        } else {
          var c := ms[0];
          MatchAttaches(c, r);
          MatchRoute(c, r, q);
          var (v, r') := Match(c, r);
          assert LastAttach(m, 1, q) == Attach(c, q);
          if v {
            assert FailFrom(m, 0, q) == FailFrom(m, 1, q);
            AndMatchFromAttaches(m, 1, r', r);
          } else {
            AndSkips(m, 1, r');
          }
        }
      }
    case Pattern(_, _, _, _, _, _, _, _) =>
      assert PathFor(m, q) == PathFor(m, r);
    case _ =>
  }

  lemma {:induction false} OrMatchFromAttaches(m: Matcher, i: nat, found: bool, r: Request, r0: Request)
    requires m.Or? && i <= |m.muxes| && r == Attached(r0, LastAttach(m, i, Route(r0)))
    ensures OrMatchFrom(m, i, found, r).1 == Attached(r0, LastAttach(m, |m.muxes|, Route(r0)))
    decreases m, 0, |m.muxes| - i
  {
    var q := Route(r0);
    if i < |m.muxes| {
      var c := m.muxes[i];
      if c.Nil? {
        OrMatchFromAttaches(m, i + 1, found, r, r0);
      } else {
        AttachedLater(r0, LastAttach(m, i, q), Attach(c, q));
        MatchAttaches(c, r);
        var (v, r') := Match(c, r);
        OrMatchFromAttaches(m, i + 1, found || v, r', r0);
      }
    }
  }

  /** Once a child of an And has failed, no later child is asked. */
  lemma {:induction false} AndSkips(m: Matcher, i: nat, r: Request)
    requires m.And? && 0 < i <= |m.muxes|
    ensures AndMatchFrom(m, i, false, r) == (false, r)
    decreases |m.muxes| - i
  {
    if i < |m.muxes| {
      AndSkips(m, i + 1, r);
    }
  }

  lemma {:induction false} AndMatchFromAttaches(m: Matcher, i: nat, r: Request, r0: Request)
    requires m.And? && 0 < i <= |m.muxes|
    requires FailFrom(m, 0, Route(r0)) == FailFrom(m, i, Route(r0))
    requires r == Attached(r0, LastAttach(m, i, Route(r0)))
    ensures AndMatchFrom(m, i, true, r).1 == Attached(r0, LastAttach(m, Asked(m, Route(r0)), Route(r0)))
    decreases m, 0, |m.muxes| - i
  {
    var q := Route(r0);
    if i < |m.muxes| {
      var c := m.muxes[i];
      if c.Nil? {
        AndMatchFromAttaches(m, i + 1, r, r0);
      } else {
        AttachedLater(r0, LastAttach(m, i, q), Attach(c, q));
        MatchAttaches(c, r);
        MatchRoute(c, r, q);
        var (v, r') := Match(c, r);
        if v {
          AndMatchFromAttaches(m, i + 1, r', r0);
        } else {
          AndSkips(m, i + 1, r');
        }
      }
    }
  }

  /**
   * `muxMatcherOr.Match` (sdk/HTTP_mux.go:187-197) asks every non-nil
   * child, each on the request the previous one left: the request comes
   * back as it was when no child attaches arguments, and otherwise with the
   * arguments of the last child that attaches some.
   */
  lemma OrMatchArgs(m: Matcher, r: Request)
    requires m.Or?
    ensures var q := Route(r);
      && ((forall k :: 0 <= k < |m.muxes| && !m.muxes[k].Nil? ==> Attach(m.muxes[k], q).None?) ==>
            Match(m, r).1 == r)
      && (forall j ::
            (0 <= j < |m.muxes| && !m.muxes[j].Nil? && Attach(m.muxes[j], q).Some? &&
             forall k :: j < k < |m.muxes| && !m.muxes[k].Nil? ==> Attach(m.muxes[k], q).None?) ==>
            Match(m, r).1 == WithArgs(r, Attach(m.muxes[j], q).value))
  {
    var q := Route(r);
    MatchAttaches(m, r);
    if forall k :: 0 <= k < |m.muxes| && !m.muxes[k].Nil? ==> Attach(m.muxes[k], q).None? {
      LastAttachNone(m, |m.muxes|, q);
    }
    forall j | 0 <= j < |m.muxes| && !m.muxes[j].Nil? && Attach(m.muxes[j], q).Some? &&
        (forall k :: j < k < |m.muxes| && !m.muxes[k].Nil? ==> Attach(m.muxes[k], q).None?)
      ensures Match(m, r).1 == WithArgs(r, Attach(m.muxes[j], q).value)
    {
      LastAttachOf(m, |m.muxes|, q, j);
    }
  }

  /**
   * `muxMatcherAnd.Match` (sdk/HTTP_mux.go:237-251) stops asking at the
   * first non-nil child that does not match: with a nil child 0 nothing is
   * attached; otherwise the request carries the arguments of the last child
   * that attaches some among those up to and including the first failing
   * one (all of them when every child matches).
   */
  lemma AndMatchArgs(m: Matcher, r: Request)
    requires m.And?
    ensures var q := Route(r);
      var stop := FailFrom(m, 0, q);
      var n := if stop == |m.muxes| then stop else stop + 1;
      && (forall j :: 0 <= j < stop && !m.muxes[j].Nil? ==> Match(m.muxes[j], r).0)
      && (stop < |m.muxes| ==> !m.muxes[stop].Nil? && !Match(m.muxes[stop], r).0)
      && ((|m.muxes| == 0 || m.muxes[0].Nil?) ==> Match(m, r).1 == r)
      && ((forall k :: 0 <= k < n && !m.muxes[k].Nil? ==> Attach(m.muxes[k], q).None?) ==> Match(m, r).1 == r)
      && (|m.muxes| > 0 && !m.muxes[0].Nil? ==>
            forall j ::
              (0 <= j < n && !m.muxes[j].Nil? && Attach(m.muxes[j], q).Some? &&
               forall k :: j < k < n && !m.muxes[k].Nil? ==> Attach(m.muxes[k], q).None?) ==>
              Match(m, r).1 == WithArgs(r, Attach(m.muxes[j], q).value))
  {
    var q := Route(r);
    var stop := FailFrom(m, 0, q);
    var n := Asked(m, q);
    MatchAttaches(m, r);
    FailFromSpec(m, 0, q);
    forall j | 0 <= j < |m.muxes| && !m.muxes[j].Nil? ensures Match(m.muxes[j], r).0 == Match(m.muxes[j], q).0 {
      MatchRoute(m.muxes[j], r, q);
    }
    if forall k :: 0 <= k < n && !m.muxes[k].Nil? ==> Attach(m.muxes[k], q).None? {
      LastAttachNone(m, n, q);
    }
    if |m.muxes| > 0 && !m.muxes[0].Nil? {
      forall j | 0 <= j < n && !m.muxes[j].Nil? && Attach(m.muxes[j], q).Some? &&
          (forall k :: j < k < n && !m.muxes[k].Nil? ==> Attach(m.muxes[k], q).None?)
        ensures Match(m, r).1 == WithArgs(r, Attach(m.muxes[j], q).value)
      {
        LastAttachOf(m, n, q, j);
      }
    }
  }

  /**
   * An And of a methods list and one more child (what `Handle` builds): the
   * second child's arguments are attached exactly when the method matches.
   */
  lemma MethodsThenMatch(m: Matcher, r: Request)
    requires m.And? && |m.muxes| == 2 && m.muxes[0].Methods? && !m.muxes[1].Nil?
    ensures Match(m, r).1 ==
      if MethodsMatch(m.muxes[0].methods, r.verb) then Attached(r, Attach(m.muxes[1], Route(r))) else r
  {
    var q := Route(r);
    MatchAttaches(m, r);
    var c0 := m.muxes[0];
    assert LastAttach(m, 1, q).None?;
    if MethodsMatch(c0.methods, r.verb) {
      assert FailFrom(m, 0, q) == FailFrom(m, 1, q);
      assert Asked(m, q) == 2;
    } else {
      assert FailFrom(m, 0, q) == 0;
    }
  }

  /** A pattern attaches the walk's captures exactly when it is keyed and the walk succeeds. */
  lemma PatternAttach(m: Matcher, r: Request)
    requires m.Pattern?
    ensures Attach(m, Route(r)) ==
      if m.parseURI.Keyed? && Extract(m.parseURI.keys, m.end, PathFor(m, r)).ok
      then Some(Extract(m.parseURI.keys, m.end, PathFor(m, r)).args)
      else None
  {
    if m.parseURI.Keyed? {
      ExtractSound(m.parseURI.keys, m.end, PathFor(m, r));
    }
  }

  // ---------------------------------------------------------------------------
  // Testing twice: settled matchers
  // ---------------------------------------------------------------------------

  /**
   * A matcher on which `Test` changes nothing: a pattern that has been
   * tested, a methods list whose priority is already the one `Test` sets,
   * and groups of settled children whose zero priority would be recomputed
   * as zero.
   */
  predicate Settled(m: Matcher)
    decreases m
  {
    match m
    case Nil => true
    case Mock(_, _, _) => true
    case Methods(p, ms) => MethodsTest(ms, p).1 == p
    case Pattern(_, _, _, _, _, _, tested, _) => tested
    case Or(p, ms) =>
      && WF(m) && (forall k :: 0 <= k < |ms| ==> Settled(ms[k]))
      && (p == 0.0 ==> SumFrom(ms, 0) / (|ms| as real) == 0.0)
    case And(p, ms) =>
      && WF(m) && (forall k :: 0 <= k < |ms| ==> Settled(ms[k]))
      && (p == 0.0 ==> SumFrom(ms, 0) == 0.0)
  }

  /**
   * A matcher whose first `Test` settles it: a leaf, or a group whose
   * children are settled, as the `MuxMatcherOr` and `MuxMatcherAnd`
   * constructors leave them by testing every child.
   */
  predicate Ready(m: Matcher) {
    && WF(m)
    && match m
       case Or(_, ms) => forall k :: 0 <= k < |ms| ==> Settled(ms[k])
       case And(_, ms) => forall k :: 0 <= k < |ms| ==> Settled(ms[k])
       case _ => true
  }

  lemma SettledIsReady(m: Matcher)
    requires Settled(m)
    ensures Ready(m)
  {
  }

  lemma {:induction false} OrTestFromSettled(m: Matcher, i: nat, found: bool, p: real, done: seq<Matcher>)
    requires m.Or? && WF(m) && i <= |m.muxes|
    requires forall k :: 0 <= k < |m.muxes| ==> Settled(m.muxes[k])
    ensures OrTestFrom(m, i, found, p, done).2 == done + m.muxes[i..]
    decreases m, 0, |m.muxes| - i
  {
    if i < |m.muxes| {
      var c := m.muxes[i];
      if found {
        OrTestFromSettled(m, i + 1, true, p + Priority(c), done + [c]);
      } else {
        TestFixed(c);
        var (v, c') := Test(c);
        OrTestFromSettled(m, i + 1, v, p + Priority(c), done + [c']);
      }
      var rest := m.muxes[i + 1..];
      assert m.muxes[i..] == [c] + rest;
      assert done + [c] + rest == done + ([c] + rest);
    }
  }

  lemma {:induction false} AndTestFromSettled(m: Matcher, i: nat, found: bool, p: real, done: seq<Matcher>)
    requires m.And? && WF(m) && i <= |m.muxes|
    requires forall k :: 0 <= k < |m.muxes| ==> Settled(m.muxes[k])
    ensures AndTestFrom(m, i, found, p, done).2 == done + m.muxes[i..]
    ensures AndTestFrom(m, i, found, p, done).1 == p + SumFrom(m.muxes, i)
    decreases m, 0, |m.muxes| - i
  {
    if i < |m.muxes| {
      var c := m.muxes[i];
      if c.Nil? {
        AndTestFromSettled(m, i + 1, found, p, done + [c]);
      } else if (if i == 0 then true else found) {
        TestFixed(c);
        var (v, c') := Test(c);
        AndTestFromSettled(m, i + 1, v, p + Priority(c'), done + [c']);
      } else {
        AndTestFromSettled(m, i + 1, false, p + Priority(c), done + [c]);
      }
      var rest := m.muxes[i + 1..];
      assert m.muxes[i..] == [c] + rest;
      assert done + [c] + rest == done + ([c] + rest);
    }
  }

  /** `Test` leaves a settled matcher as it is. */
  lemma {:induction false} TestFixed(m: Matcher)
    requires !m.Nil? && Settled(m)
    ensures WF(m) && Test(m).1 == m
    decreases m, 2
  {
    match m
    case Or(_, _) => OrFixed(m);
    case And(_, _) => AndFixed(m);
    case _ =>
  }

  lemma {:induction false} OrFixed(m: Matcher)
    requires m.Or? && Settled(m)
    ensures WF(m) && Test(m).1 == m
    decreases m, 1
  {
    SettledIsReady(m);
    OrTestKeeps(m);
  }

  lemma {:induction false} AndFixed(m: Matcher)
    requires m.And? && Settled(m)
    ensures WF(m) && Test(m).1 == m
    decreases m, 1
  {
    SettledIsReady(m);
    AndTestKeeps(m);
  }

  /**
   * Testing a ready matcher settles it, so a second `Test` (as
   * `uniqueMuxMatcher`, sdk/HTTP_mux.go:531-549, and `Mux.With` perform)
   * returns the same verdict and changes nothing.
   */
  lemma TestSettles(m: Matcher)
    requires !m.Nil? && Ready(m)
    ensures !Test(m).1.Nil? && Settled(Test(m).1)
    ensures Test(Test(m).1) == Test(m)
  {
    match m
    case Or(_, _) => OrSettles(m);
    case And(_, _) => AndSettles(m);
    case Methods(p, ms) => MethodsTestIdempotent(ms, p);
    case _ =>
  }

  /** `TestSettles` for an Or: its children are kept and its priority fixed. */
  lemma OrSettles(m: Matcher)
    requires m.Or? && Ready(m)
    ensures !Test(m).1.Nil? && Settled(Test(m).1)
    ensures Test(Test(m).1) == Test(m)
  {
    OrTestKeeps(m);
    var m' := Test(m).1;
    OrTestSpec(m);
    OrTestSpec(m');
    OrFixed(m');
  }

  /** An Or of settled children keeps its children and fixes its priority. */
  lemma OrTestKeeps(m: Matcher)
    requires m.Or? && Ready(m)
    ensures Test(m).1 == Or(if m.p == 0.0 then SumFrom(m.muxes, 0) / (|m.muxes| as real) else m.p, m.muxes)
    decreases m, 0, |m.muxes| + 1
  {
    var ms := m.muxes;
    OrTestFromSettled(m, 0, false, 0.0, []);
    OrTestSpec(m);
    assert [] + ms[0..] == ms;
  }

  /** `TestSettles` for an And: its children are kept and its priority fixed. */
  lemma AndSettles(m: Matcher)
    requires m.And? && Ready(m)
    ensures !Test(m).1.Nil? && Settled(Test(m).1)
    ensures Test(Test(m).1) == Test(m)
  {
    AndTestKeeps(m);
    var m' := Test(m).1;
    AndTestSpec(m);
    AndTestSpec(m');
    AndFixed(m');
  }

  /** An And of settled children keeps its children and fixes its priority. */
  lemma AndTestKeeps(m: Matcher)
    requires m.And? && Ready(m)
    ensures Test(m).1 == And(if m.p == 0.0 then SumFrom(m.muxes, 0) else m.p, m.muxes)
    decreases m, 0, |m.muxes| + 1
  {
    var ms := m.muxes;
    AndTestFromSettled(m, 0, false, 0.0, []);
    assert [] + ms[0..] == ms;
  }

  /**
   * The priority `muxMatcherAnd.Test` (sdk/HTTP_mux.go:216-235) assigns to a
   * group of settled children when none is given: the sum of the non-nil
   * children's priorities.
   */
  lemma AndTestPriority(m: Matcher)
    requires m.And? && Ready(m)
    ensures Test(m).1.p == if m.p == 0.0 then SumFrom(m.muxes, 0) else m.p
  {
    AndTestFromSettled(m, 0, false, 0.0, []);
  }

  // ---------------------------------------------------------------------------
  // Pattern
  // ---------------------------------------------------------------------------

  /** The pattern and start delimiter as `Test` compiles them. */
  function Folded(s: string, caseSensitive: bool): (t: string)
    ensures |t| == |s|
    ensures !caseSensitive ==> t == Lower(s)
    ensures caseSensitive ==> t == s
  {
    if caseSensitive then s else Lower(s)
  }

  /**
   * `muxMatcherPattern.Test` (sdk/HTTP_mux.go:439-469) on a fresh pattern:
   * it passes exactly when the pattern is non-empty; a pattern without its
   * start delimiter becomes an exact matcher of priority ten per character
   * with its delimiters cleared, any other becomes a keyed matcher whose
   * priority, when not given, is ten per scaffold character plus two per
   * token, and so positive.
   */
  lemma PatternTestSpec(m: Matcher)
    requires m.Pattern? && !m.tested && m.parseURI == Unparsed
    ensures var (ok, m') := Test(m);
      var pat := Folded(m.pattern, m.caseSensitive);
      var start := Folded(m.start, m.caseSensitive);
      && m'.Pattern? && m'.tested && m'.testVal == ok && m'.caseSensitive == m.caseSensitive
      && (ok <==> |m.pattern| > 0)
      && (!ok ==> m'.parseURI == Unparsed)
      && (ok ==> m'.pattern == pat)
      && (ok && !StartOccurs(pat, start) ==>
            m'.parseURI == Exact && m'.start == "" && m'.end == "" &&
            m'.p == (|m.pattern| * MultiplierExactPattern) as real)
      && (ok && StartOccurs(pat, start) ==>
            var sc := Parse(pat, start, Folded(m.end, m.caseSensitive));
            m'.parseURI == Keyed(sc.keys) &&
            m'.start == start && m'.end == Folded(m.end, m.caseSensitive) &&
            |m'.parseURI.keys| > 0 && m'.parseURI.keys[0].Literal? &&
            (m.p != 0.0 ==> m'.p == m.p) &&
            (m.p == 0.0 ==> m'.p == (|sc.scaffold| * MultiplierExactPattern + |sc.keys| * MultiplierNKeys) as real && m'.p > 0.0))
  {
    if |m.pattern| > 0 {
      var pat := Folded(m.pattern, m.caseSensitive);
      var start := Folded(m.start, m.caseSensitive);
      var end := Folded(m.end, m.caseSensitive);
      KeysIffStartOccurs(pat, start, end);
      FirstTokenLiteral(pat, start, end, 0, Initial);
    }
  }

  /**
   * An exact pattern matches exactly the paths equal to it (compared after
   * lower-casing unless case-sensitive) and leaves the request untouched.
   */
  lemma ExactPatternMatch(m: Matcher, r: Request)
    requires m.Pattern? && m.parseURI == Exact
    ensures Match(m, r).0 <==> Folded(r.path, m.caseSensitive) == m.pattern
    ensures Match(m, r).1 == r
  {
  }

  /**
   * A keyed pattern matches exactly when the token walk succeeds; it then
   * attaches the captured values, which the path explains token by token,
   * and otherwise leaves the request untouched.
   */
  lemma KeyedPatternMatch(m: Matcher, r: Request)
    requires m.Pattern? && m.parseURI.Keyed?
    ensures var (ok, r') := Match(m, r);
      var uri := Folded(r.path, m.caseSensitive);
      var w := Extract(m.parseURI.keys, m.end, uri);
      && (ok <==> w.ok)
      && (ok ==> r' == WithArgs(r, w.args) && Explains(m.parseURI.keys, m.end, uri, w))
      && (!ok ==> r' == r)
  {
    ExtractSound(m.parseURI.keys, m.end, Folded(r.path, m.caseSensitive));
  }

  /** A pattern that has not been compiled by a successful `Test` matches nothing. */
  lemma UnparsedNeverMatches(m: Matcher, r: Request)
    requires m.Pattern? && m.parseURI == Unparsed
    ensures Match(m, r) == (false, r)
  {
  }
}
