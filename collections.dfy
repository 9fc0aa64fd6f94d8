/**
 * Sequence helpers used by the matcher constructors: the quadratic
 * keep-the-last-occurrence de-duplication behind `uniqueString` and
 * `uniqueMuxMatcher`, and the byte-wise string order of `sort.Strings`.
 */
module Collections {

  // ---------------------------------------------------------------------------
  // De-duplication that keeps the last occurrence
  // ---------------------------------------------------------------------------

  /** Some element after position `i` has the same key as `s[i]`. */
  predicate LaterDup<T, K(==)>(s: seq<T>, i: nat, key: T -> K)
    requires i < |s|
  {
    exists j :: i < j < |s| && key(s[j]) == key(s[i])
  }

  /**
   * The elements of `s` whose key does not occur again later, in their
   * original order: what the `skip` scan of `uniqueString` and
   * `uniqueMuxMatcher` (sdk/HTTP_mux.go:531-564) keeps.
   */
  function KeepLast<T, K(==)>(s: seq<T>, key: T -> K): (r: seq<T>)
    ensures |r| <= |s|
  {
    if s == [] then []
    else (if LaterDup(s, 0, key) then [] else [s[0]]) + KeepLast(s[1..], key)
  }

  /** Every element kept comes from the input. */
  lemma {:induction false} KeepLastFromInput<T, K>(s: seq<T>, key: T -> K)
    ensures forall k :: 0 <= k < |KeepLast(s, key)| ==> KeepLast(s, key)[k] in s
  {
    if s != [] {
      KeepLastFromInput(s[1..], key);
      var tail := KeepLast(s[1..], key);
      assert forall k :: 0 <= k < |tail| ==> tail[k] in s;
    }
  }

  /** No two kept elements share a key. */
  lemma {:induction false} KeepLastDistinct<T, K>(s: seq<T>, key: T -> K)
    ensures forall a, b :: 0 <= a < b < |KeepLast(s, key)| ==>
      key(KeepLast(s, key)[a]) != key(KeepLast(s, key)[b])
  {
    if s != [] {
      KeepLastDistinct(s[1..], key);
      KeepLastFromInput(s[1..], key);
      var tail := KeepLast(s[1..], key);
      if !LaterDup(s, 0, key) {
        forall k | 0 <= k < |tail| ensures key(tail[k]) != key(s[0]) {
          var j :| 0 <= j < |s[1..]| && s[1..][j] == tail[k];
          assert s[j + 1] == tail[k];
        }
      }
    }
  }

  /** The last occurrence of every key is kept. */
  lemma {:induction false} KeepLastKeepsLast<T, K>(s: seq<T>, key: T -> K, i: nat)
    requires i < |s| && !LaterDup(s, i, key)
    ensures s[i] in KeepLast(s, key)
  {
    if i > 0 {
      assert forall j :: i - 1 < j < |s[1..]| ==> s[1..][j] == s[j + 1];
      KeepLastKeepsLast(s[1..], key, i - 1);
    }
  }

  /** No key is lost: each input key is the key of some kept element. */
  lemma {:induction false} KeepLastCovers<T, K>(s: seq<T>, key: T -> K, i: nat)
    requires i < |s|
    ensures exists y :: y in KeepLast(s, key) && key(y) == key(s[i])
    decreases |s| - i
  {
    if LaterDup(s, i, key) {
      var j :| i < j < |s| && key(s[j]) == key(s[i]);
      KeepLastCovers(s, key, j);
    } else {
      KeepLastKeepsLast(s, key, i);
    }
  }

  /** One step of `KeepLast`, seen from an arbitrary position of the input. */
  lemma {:induction false} KeepLastStep<T, K>(s: seq<T>, i: nat, key: T -> K)
    requires i < |s|
    ensures KeepLast(s[i..], key) == (if LaterDup(s, i, key) then [] else [s[i]]) + KeepLast(s[i + 1..], key)
  {
    assert s[i..][1..] == s[i + 1..];
    assert LaterDup(s[i..], 0, key) == LaterDup(s, i, key) by {
      if LaterDup(s, i, key) {
        var j :| i < j < |s| && key(s[j]) == key(s[i]);
        assert key(s[i..][j - i]) == key(s[i..][0]);
      }
    }
  }

  /** Two elements with different keys are both kept. */
  lemma KeepLastPair<T, K>(a: T, b: T, key: T -> K)
    requires key(a) != key(b)
    ensures KeepLast([a, b], key) == [a, b]
  {
    var s := [a, b];
    assert !LaterDup(s, 0, key);
    assert s[1..] == [b];
    assert KeepLast([b], key) == [b] by {
      assert [b][1..] == [];
    }
  }

  /** Moving the middle part of a concatenation to the left. */
  lemma Regroup<T>(r: seq<T>, head: seq<T>, tail: seq<T>, whole: seq<T>)
    requires r + (head + tail) == whole
    ensures (r + head) + tail == whole
  {
    assert r + (head + tail) == (r + head) + tail;
  }

  /** The loop invariant of a keep-the-last scan, carried past position `i`. */
  lemma KeepLastAdvance<T, K>(s: seq<T>, key: T -> K, i: nat, r: seq<T>, skip: bool)
    requires i < |s| && r + KeepLast(s[i..], key) == KeepLast(s, key)
    requires skip <==> LaterDup(s, i, key)
    ensures (if skip then r else r + [s[i]]) + KeepLast(s[i + 1..], key) == KeepLast(s, key)
  {
    KeepLastStep(s, i, key);
    var cur := KeepLast(s[i..], key);
    var tail := KeepLast(s[i + 1..], key);
    var whole := KeepLast(s, key);
    if skip {
      assert cur == tail;
    } else {
      assert cur == [s[i]] + tail;
      Regroup(r, [s[i]], tail, whole);
    }
  }

  /** Strings are compared as themselves. */
  function Identity(x: string): string { x }

  /** De-duplicating strings keeps exactly the strings of the input. */
  lemma KeepLastSameElements(s: seq<string>)
    ensures forall x :: x in KeepLast(s, Identity) <==> x in s
  {
    KeepLastFromInput(s, Identity);
    forall x | x in s ensures x in KeepLast(s, Identity) {
      var i :| 0 <= i < |s| && s[i] == x;
      KeepLastCovers(s, Identity, i);
    }
  }

  /**
   * The inner loop of `uniqueString` (sdk/HTTP_mux.go:555-558): scan the
   * whole slice; `skip` is reset at the element itself, so it ends up true
   * exactly when an equal string follows.
   */
  method EqualFollows(strs: seq<string>, i: nat) returns (skip: bool)
    requires i < |strs|
    ensures skip <==> LaterDup(strs, i, Identity)
  {
    skip := false;
    var j := 0;
    while j < |strs|
      invariant 0 <= j <= |strs|
      invariant skip == exists k :: (if j <= i then 0 else i + 1) <= k < j && strs[k] == strs[i]
    {
      skip := i != j && (skip || strs[i] == strs[j]);
      j := j + 1;
    }
  }

  /**
   * `uniqueString` (sdk/HTTP_mux.go:551-564): each string is kept unless an
   * equal string follows it.
   */
  method UniqueStrings(strs: seq<string>) returns (r: seq<string>)
    ensures r == KeepLast(strs, Identity)
  {
    r := [];
    var i := 0;
    while i < |strs|
      invariant 0 <= i <= |strs|
      invariant r + KeepLast(strs[i..], Identity) == KeepLast(strs, Identity)
    {
      var skip := EqualFollows(strs, i);
      KeepLastAdvance(strs, Identity, i, r, skip);
      if !skip {
        r := r + [strs[i]];
      }
      i := i + 1;
    }
    assert KeepLast(strs[i..], Identity) == [];
  }

  // ---------------------------------------------------------------------------
  // Byte-wise string order (`sort.Strings`)
  // ---------------------------------------------------------------------------

  /** `a <= b` in Go's byte-wise string comparison. */
  predicate LexLe(a: string, b: string) {
    a == [] || (b != [] && (a[0] < b[0] || (a[0] == b[0] && LexLe(a[1..], b[1..]))))
  }

  lemma {:induction false} LexLeTransitive(a: string, b: string, c: string)
    requires LexLe(a, b) && LexLe(b, c)
    ensures LexLe(a, c)
  {
    if a != [] && a[0] == b[0] && b[0] == c[0] {
      LexLeTransitive(a[1..], b[1..], c[1..]);
    }
  }

  lemma {:induction false} LexLeTotal(a: string, b: string)
    ensures LexLe(a, b) || LexLe(b, a)
  {
    if a != [] && b != [] && a[0] == b[0] {
      LexLeTotal(a[1..], b[1..]);
    }
  }

  lemma {:induction false} LexLeAntisymmetric(a: string, b: string)
    requires LexLe(a, b) && LexLe(b, a)
    ensures a == b
  {
    if a != [] {
      LexLeAntisymmetric(a[1..], b[1..]);
      assert a == [a[0]] + a[1..] && b == [b[0]] + b[1..];
    }
  }

  predicate Sorted(s: seq<string>) {
    forall i, j :: 0 <= i < j < |s| ==> LexLe(s[i], s[j])
  }

  /** Strictly increasing: sorted and free of duplicates. */
  predicate StrictlySorted(s: seq<string>) {
    forall i, j :: 0 <= i < j < |s| ==> LexLe(s[i], s[j]) && s[i] != s[j]
  }

  /** Insert `x` into sorted `s` after every element not greater than it. */
  function Insert(s: seq<string>, x: string): (r: seq<string>)
    requires Sorted(s)
    ensures Sorted(r)
    ensures multiset(r) == multiset(s) + multiset{x}
  {
    if s == [] then [x]
    else if LexLe(x, s[0]) then
      assert forall j :: 0 <= j < |s| ==> LexLe(x, s[j]) by {
        forall j | 0 <= j < |s| ensures LexLe(x, s[j]) {
          if j > 0 { LexLeTransitive(x, s[0], s[j]); }
        }
      }
      [x] + s
    else
      var tail := Insert(s[1..], x);
      InsertAfterHead(s, x, tail);
      [s[0]] + tail
  }

  /** Putting the head of `s` back in front of the insertion into its tail keeps the order. */
  lemma InsertAfterHead(s: seq<string>, x: string, tail: seq<string>)
    requires Sorted(s) && s != [] && !LexLe(x, s[0])
    requires Sorted(tail) && multiset(tail) == multiset(s[1..]) + multiset{x}
    ensures Sorted([s[0]] + tail)
    ensures multiset([s[0]] + tail) == multiset(s) + multiset{x}
  {
    LexLeTotal(x, s[0]);
    assert s == [s[0]] + s[1..];
    forall k | 0 <= k < |tail| ensures LexLe(s[0], tail[k]) {
      assert tail[k] in multiset(tail);
      assert tail[k] == x || tail[k] in s[1..];
    }
  }

  /**
   * `sort.Strings` (sdk/HTTP_mux.go:269) gives the sorted permutation of its
   * input; insertion sort computes the same one.
   */
  method SortStrings(s: seq<string>) returns (r: seq<string>)
    ensures Sorted(r)
    ensures multiset(r) == multiset(s)
  {
    r := [];
    var i := 0;
    while i < |s|
      invariant 0 <= i <= |s|
      invariant Sorted(r)
      invariant multiset(r) == multiset(s[..i])
    {
      assert s[..i + 1] == s[..i] + [s[i]];
      r := Insert(r, s[i]);
      i := i + 1;
    }
    assert s[..i] == s;
  }

  /** Keeping the last occurrence of each string in a sorted list leaves it strictly sorted. */
  lemma {:induction false} KeepLastOfSorted(s: seq<string>)
    requires Sorted(s)
    ensures StrictlySorted(KeepLast(s, Identity))
  {
    var id := Identity;
    if s != [] {
      KeepLastOfSorted(s[1..]);
      KeepLastFromInput(s[1..], id);
      KeepLastDistinct(s, id);
    }
  }
}
