/**
 * The matcher constructors `MuxMatcherOr`, `MuxMatcherAnd`,
 * `MuxMatcherMethods` and `MuxMatcherPattern`, with the de-duplication
 * `uniqueMuxMatcher` they share.
 */
module Constructors {
  import opened Collections
  import opened Matchers
  import opened MatcherLaws

  /** Every matcher of `ms` tested once. */
  function TestAll(ms: seq<Matcher>): (r: seq<Matcher>)
    requires forall k :: 0 <= k < |ms| ==> !ms[k].Nil? && Ready(ms[k])
    ensures |r| == |ms|
  {
    seq(|ms|, k requires 0 <= k < |ms| && !ms[k].Nil? && Ready(ms[k]) => Test(ms[k]).1)
  }

  /** Testing two matchers tests each of them. */
  lemma TestAllPair(x: Matcher, y: Matcher)
    requires !x.Nil? && Ready(x) && !y.Nil? && Ready(y)
    ensures TestAll([x, y]) == [Test(x).1, Test(y).1]
  {
  }

  /** Testing a matcher of `ms`, for the first time or again, gives its entry in `TestAll(ms)`. */
  lemma Retest(ms: seq<Matcher>, j: nat, c: Matcher)
    requires forall k :: 0 <= k < |ms| ==> !ms[k].Nil? && Ready(ms[k])
    requires j < |ms| && (c == ms[j] || c == TestAll(ms)[j])
    ensures !c.Nil? && WF(c) && Test(c).1 == TestAll(ms)[j]
  {
    TestSettles(ms[j]);
    SettledIsReady(TestAll(ms)[j]);
  }

  /**
   * The inner loop of `uniqueMuxMatcher` (sdk/HTTP_mux.go:537-541) for
   * position `i`: test every matcher again and find out whether one after
   * position `i` has the key `bi`. Afterwards every matcher has been tested.
   */
  method ScanLater(muxes: seq<Matcher>, cur: seq<Matcher>, i: nat, bi: Key) returns (skip: bool, cur': seq<Matcher>)
    requires forall k :: 0 <= k < |muxes| ==> !muxes[k].Nil? && Ready(muxes[k])
    requires i < |muxes| == |cur|
    requires forall k :: 0 <= k < |muxes| ==> cur[k] == muxes[k] || cur[k] == TestAll(muxes)[k]
    requires bi == KeyOf(TestAll(muxes)[i])
    ensures cur' == TestAll(muxes)
    ensures skip <==> LaterDup(TestAll(muxes), i, KeyOf)
  {
    ghost var T := TestAll(muxes);
    skip := false;
    cur' := cur;
    var j := 0;
    while j < |muxes|
      invariant 0 <= j <= |muxes| && |cur'| == |muxes|
      invariant forall k :: 0 <= k < |muxes| ==> cur'[k] == if k < j then T[k] else cur[k]
      invariant skip == exists k :: (if j <= i then 0 else i + 1) <= k < j && KeyOf(T[k]) == bi
    {
      Retest(muxes, j, cur'[j]);
      cur' := cur'[j := Test(cur'[j]).1];
      var bj := KeyOf(cur'[j]);
      skip := i != j && (skip || bi == bj);
      j := j + 1;
    }
  }

  /**
   * `uniqueMuxMatcher` (sdk/HTTP_mux.go:531-549): every matcher is tested
   * (again) before its key is taken, and a matcher is dropped when one with
   * the same key follows it. Here Go's in-place updates are the updates of
   * the local sequence `cur`.
   */
  method UniqueMatchers(muxes: seq<Matcher>) returns (r: seq<Matcher>)
    requires forall k :: 0 <= k < |muxes| ==> !muxes[k].Nil? && Ready(muxes[k])
    ensures r == KeepLast(TestAll(muxes), KeyOf)
  {
    ghost var T := TestAll(muxes);
    var cur := muxes;
    r := [];
    var i := 0;
    while i < |muxes|
      invariant 0 <= i <= |muxes| && |cur| == |muxes|
      invariant i == 0 ==> cur == muxes
      invariant i > 0 ==> cur == T
      invariant r + KeepLast(T[i..], KeyOf) == KeepLast(T, KeyOf)
    {
      Retest(muxes, i, cur[i]);
      var tested := Test(cur[i]).1;
      assert tested == T[i];
      cur := cur[i := tested];
      assert forall k :: 0 <= k < |muxes| ==> cur[k] == muxes[k] || cur[k] == T[k];
      var bi := KeyOf(tested);
      var skip;
      skip, cur := ScanLater(muxes, cur, i, bi);
      KeepLastAdvance(T, KeyOf, i, r, skip);
      if !skip {
        r := r + [cur[i]];
      }
      i := i + 1;
    }
    assert T[i..] == [];
  }

  /** Everything `UniqueMatchers` keeps has been tested and is settled. */
  lemma UniqueSettled(muxes: seq<Matcher>)
    requires forall k :: 0 <= k < |muxes| ==> !muxes[k].Nil? && Ready(muxes[k])
    ensures var r := KeepLast(TestAll(muxes), KeyOf);
      forall k :: 0 <= k < |r| ==> !r[k].Nil? && Settled(r[k])
    ensures |muxes| > 0 ==> |KeepLast(TestAll(muxes), KeyOf)| > 0
  {
    var T := TestAll(muxes);
    forall k | 0 <= k < |muxes| ensures !T[k].Nil? && Settled(T[k]) {
      TestSettles(muxes[k]);
    }
    KeepLastFromInput(T, KeyOf);
    if |muxes| > 0 {
      KeepLastKeepsLast(T, KeyOf, |T| - 1);
    }
  }

  /**
   * `MuxMatcherOr` (sdk/HTTP_mux.go:167-171): the children de-duplicated by
   * key and tested. Unless no priority and no child is given (where Go's
   * `Test` would divide zero by zero) the result is ready to be tested.
   */
  method MakeOr(p: real, muxes: seq<Matcher>) returns (m: Matcher)
    requires forall k :: 0 <= k < |muxes| ==> !muxes[k].Nil? && Ready(muxes[k])
    ensures m == Or(p, KeepLast(TestAll(muxes), KeyOf))
    ensures p != 0.0 || |muxes| > 0 ==> Ready(m)
  {
    var r := UniqueMatchers(muxes);
    UniqueSettled(muxes);
    m := Or(p, r);
  }

  /** `MuxMatcherAnd` (sdk/HTTP_mux.go:210-214): the result is always ready to be tested. */
  method MakeAnd(p: real, muxes: seq<Matcher>) returns (m: Matcher)
    requires forall k :: 0 <= k < |muxes| ==> !muxes[k].Nil? && Ready(muxes[k])
    ensures m == And(p, KeepLast(TestAll(muxes), KeyOf))
    ensures Ready(m)
  {
    var r := UniqueMatchers(muxes);
    UniqueSettled(muxes);
    m := And(p, r);
  }

  /**
   * `MuxMatcherMethods` (sdk/HTTP_mux.go:266-272): the method names sorted
   * byte-wise with duplicates removed, so the list is strictly increasing
   * and holds exactly the names given.
   */
  method MakeMethods(p: real, methods: seq<string>) returns (m: Matcher)
    ensures m.Methods? && m.p == p
    ensures StrictlySorted(m.methods)
    ensures forall x :: x in m.methods <==> x in methods
    ensures |m.methods| <= |methods|
  {
    var sorted := SortStrings(methods);
    var unique := UniqueStrings(sorted);
    KeepLastOfSorted(sorted);
    KeepLastSameElements(sorted);
    assert forall x :: x in sorted <==> x in methods by {
      assert forall x :: x in sorted <==> x in multiset(sorted);
      assert forall x :: x in methods <==> x in multiset(methods);
    }
    assert |sorted| == |methods| by {
      assert |multiset(sorted)| == |multiset(methods)|;
    }
    m := Methods(p, unique);
  }

  /**
   * `MuxMatcherPattern` (sdk/HTTP_mux.go:354-366): empty delimiters default
   * to `:` and `/`, so neither delimiter is ever empty; the pattern is not
   * yet compiled.
   */
  function MakePattern(p: real, pattern: string, start: string, end: string, caseSensitive: bool): (m: Matcher)
    ensures m.Pattern? && m.p == p && m.pattern == pattern && m.caseSensitive == caseSensitive
    ensures m.start == (if start == "" then ":" else start) && m.end == (if end == "" then "/" else end)
    ensures |m.start| > 0 && |m.end| > 0
    ensures !m.tested && m.parseURI == Unparsed
  {
    Pattern(p, pattern, if start == "" then ":" else start, if end == "" then "/" else end,
            caseSensitive, Unparsed, false, false)
  }

  /** A freshly built Methods or Pattern matcher is ready to be tested. */
  lemma FreshLeavesReady(p: real, pattern: string, start: string, end: string, cs: bool, ms: seq<string>)
    ensures Ready(MakePattern(p, pattern, start, end, cs)) && Ready(Methods(p, ms))
  {
  }
}
