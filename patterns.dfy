/**
 * The path-template compiler (`parsePattern`, sdk/HTTP_mux.go:373-437) and
 * the extractor it feeds (`parseURI`, sdk/HTTP_mux.go:471-508).
 *
 * A pattern compiles to a list of tokens: literals (Go's tag 0) and
 * placeholders (tag 1), plus a `%s` scaffold string. The extractor walks
 * that list over a request path.
 */
module Patterns {
  import opened Text
  import opened Requests

  datatype Token = Literal(text: string) | Placeholder(name: string)

  // ---------------------------------------------------------------------------
  // The scanner
  // ---------------------------------------------------------------------------

  /** The scanner's variables between two characters of the pattern. */
  datatype ScanState = ScanState(
    found: bool,        // inside a placeholder
    skipFound: nat,     // characters of the current placeholder name so far
    skipChar: int,      // delimiter characters still to be skipped
    buf: string,        // the rune buffer `s`: the literal being accumulated
    scaffold: string,   // the builder `b`
    keys: seq<Token>)

  const Initial := ScanState(false, 0, 0, [], [], [])

  /** One iteration of the `for i, e := range m.Pattern` loop. */
  function Step(p: string, start: string, end: string, i: nat, st: ScanState): ScanState
    requires i < |p|
  {
    if st.skipChar > 0 then
      st.(skipChar := st.skipChar - 1)
    else if !st.found && Lookahead(p, start, i) then
      st.(keys := st.keys + [Literal(st.buf)], buf := [], skipChar := |start| - 1, found := true)
    else
      var buf := st.buf + [p[i]];
      var isEnd := Lookahead(p, end, i);
      var isLast := i == |p| - 1;
      if st.found && (isEnd || isLast) then
        if i > st.skipFound then
          var j := if !isEnd && isLast then i + 1 else i;
          var key := p[i - st.skipFound .. j];
          var scaffold := st.scaffold + "%s";
          var scaffold' :=
            if Lookahead(p, start, i + 1) || (end == "/" && !isLast) then scaffold + end else scaffold;
          ScanState(false, 0, |end| - 1, if end == "/" then "/" else [], scaffold', st.keys + [Placeholder(key)])
        else
          st.(skipChar := |end| - 1, found := false, buf := buf)
      else if st.found then
        st.(buf := buf, skipFound := st.skipFound + 1)
      else
        st.(buf := buf, skipFound := 0, scaffold := st.scaffold + [p[i]])
  }

  /** The scanner run from position `i` to the end of the pattern. */
  function ScanFrom(p: string, start: string, end: string, i: nat, st: ScanState): ScanState
    requires i <= |p|
    decreases |p| - i
  {
    if i == |p| then st else ScanFrom(p, start, end, i + 1, Step(p, start, end, i, st))
  }

  /** The result of `parsePattern` on an already lower-cased pattern and delimiters. */
  function Parse(p: string, start: string, end: string): ScanState {
    ScanFrom(p, start, end, 0, Initial)
  }

  /** `parsePattern` (sdk/HTTP_mux.go:373-437), after its lower-casing step. */
  method ParsePattern(p: string, start: string, end: string) returns (pat: string, keys: seq<Token>, l: nat)
    ensures pat == Parse(p, start, end).scaffold
    ensures keys == Parse(p, start, end).keys
    ensures l == |keys|
  {
    var s: string, b: string := [], [];
    var found, skipFound, skipChar := false, 0, 0;
    keys := [];
    var i := 0;
    while i < |p|
      invariant 0 <= i <= |p|
      invariant ScanFrom(p, start, end, i, ScanState(found, skipFound, skipChar, s, b, keys)) == Parse(p, start, end)
    {
      ghost var st := ScanState(found, skipFound, skipChar, s, b, keys);
      if skipChar > 0 {
        skipChar := skipChar - 1;
      } else if !found && Lookahead(p, start, i) {
        keys, s := keys + [Literal(s)], [];
        skipChar, found := |start| - 1, true;
      } else {
        s := s + [p[i]];
        var isEnd, isLastChar := Lookahead(p, end, i), i == |p| - 1;
        if found && (isEnd || isLastChar) {
          skipChar, found := |end| - 1, false;
          if i > skipFound {
            var j := i;
            if !isEnd && isLastChar {
              j := j + 1;
            }
            var key := p[i - skipFound .. j];
            keys, s := keys + [Placeholder(key)], [];
            skipFound := 0;
            b := b + "%s";
            if end == "/" {
              s := s + ['/'];
            }
            if Lookahead(p, start, i + 1) || (end == "/" && !isLastChar) {
              b := b + end;
            }
          }
        } else if found {
          skipFound := skipFound + 1;
        } else {
          skipFound, b := 0, b + [p[i]];
        }
      }
      assert ScanState(found, skipFound, skipChar, s, b, keys) == Step(p, start, end, i, st);
      i := i + 1;
    }
    pat, l := b, |keys|;
  }

  /** The start delimiter occurs at some position of the pattern. */
  ghost predicate StartOccurs(p: string, start: string) {
    exists k :: 0 <= k < |p| && Lookahead(p, start, k)
  }

  /** The scanner never drops a token it has emitted. */
  lemma {:induction false} ScanKeepsKeys(p: string, start: string, end: string, i: nat, st: ScanState)
    requires i <= |p|
    ensures |ScanFrom(p, start, end, i, st).keys| >= |st.keys|
    decreases |p| - i
  {
    if i < |p| {
      ScanKeepsKeys(p, start, end, i + 1, Step(p, start, end, i, st));
    }
  }

  lemma {:induction false} NoStartNoKeys(p: string, start: string, end: string, i: nat, st: ScanState)
    requires i <= |p|
    requires !st.found && st.keys == []
    requires forall k :: i <= k < |p| ==> !Lookahead(p, start, k)
    ensures ScanFrom(p, start, end, i, st).keys == []
    decreases |p| - i
  {
    if i < |p| {
      NoStartNoKeys(p, start, end, i + 1, Step(p, start, end, i, st));
    }
  }

  lemma {:induction false} StartGivesKeys(p: string, start: string, end: string, i: nat, st: ScanState, k: nat)
    requires i <= k < |p| && Lookahead(p, start, k)
    requires !st.found && st.skipChar <= 0
    ensures |ScanFrom(p, start, end, i, st).keys| > 0
    decreases |p| - i
  {
    var next := Step(p, start, end, i, st);
    if Lookahead(p, start, i) {
      ScanKeepsKeys(p, start, end, i + 1, next);
    } else {
      StartGivesKeys(p, start, end, i + 1, next, k);
    }
  }

  /**
   * A pattern yields tokens exactly when its start delimiter occurs in it;
   * otherwise `Test` turns it into an exact matcher (sdk/HTTP_mux.go:454).
   */
  lemma KeysIffStartOccurs(p: string, start: string, end: string)
    ensures |Parse(p, start, end).keys| > 0 <==> StartOccurs(p, start)
  {
    if StartOccurs(p, start) {
      var k :| 0 <= k < |p| && Lookahead(p, start, k);
      StartGivesKeys(p, start, end, 0, Initial, k);
    } else {
      NoStartNoKeys(p, start, end, 0, Initial);
    }
  }

  /** The first token is always a literal: a placeholder is only closed after a start delimiter. */
  lemma {:induction false} FirstTokenLiteral(p: string, start: string, end: string, i: nat, st: ScanState)
    requires i <= |p|
    requires st.keys == [] ==> !st.found
    requires st.keys != [] ==> st.keys[0].Literal?
    ensures var r := ScanFrom(p, start, end, i, st).keys; r != [] ==> r[0].Literal?
    decreases |p| - i
  {
    if i < |p| {
      var next := Step(p, start, end, i, st);
      assert st.keys != [] ==> next.keys[0] == st.keys[0];
      FirstTokenLiteral(p, start, end, i + 1, next);
    }
  }

  /**
   * The scanner's token list alternates: a literal is emitted when a start
   * delimiter opens a placeholder, and a placeholder only when one closes.
   */
  ghost predicate Alternates(st: ScanState) {
    && NoAdjacentPlaceholders(st.keys)
    && (st.found ==> |st.keys| > 0 && st.keys[|st.keys| - 1].Literal?)
  }

  /** One pass of the scanning loop keeps the token list alternating. */
  lemma StepAlternates(p: string, start: string, end: string, i: nat, st: ScanState)
    requires i < |p| && Alternates(st)
    ensures Alternates(Step(p, start, end, i, st))
  {
  }

  lemma {:induction false} ScanAlternates(p: string, start: string, end: string, i: nat, st: ScanState)
    requires i <= |p| && Alternates(st)
    ensures NoAdjacentPlaceholders(ScanFrom(p, start, end, i, st).keys)
    decreases |p| - i
  {
    if i < |p| {
      StepAlternates(p, start, end, i, st);
      ScanAlternates(p, start, end, i + 1, Step(p, start, end, i, st));
    }
  }

  /** `parsePattern` never emits two placeholders in a row. */
  lemma ParseNoAdjacent(p: string, start: string, end: string)
    ensures NoAdjacentPlaceholders(Parse(p, start, end).keys)
  {
    ScanAlternates(p, start, end, 0, Initial);
  }

  /**
   * `n` is the text of `p` from `a` to `b`: it directly follows an
   * occurrence of the start delimiter, runs up to the next end delimiter
   * (or to the end of the pattern), and holds no end delimiter itself.
   */
  ghost predicate Delimited(p: string, start: string, end: string, n: string, a: int, b: int) {
    && |start| <= a <= b <= |p| && Lookahead(p, start, a - |start|) && n == p[a..b]
    && (b == |p| || Lookahead(p, end, b))
    && (forall c :: a <= c < b ==> !Lookahead(p, end, c))
  }

  /** Every placeholder of `keys` is named by delimited text of `p`. */
  ghost predicate NamesDelimited(p: string, start: string, end: string, keys: seq<Token>) {
    forall k :: 0 <= k < |keys| && keys[k].Placeholder? ==>
      exists a, b :: Delimited(p, start, end, keys[k].name, a, b)
  }

  /**
   * The scanner's state before position `i`, with `a` the position where
   * the open placeholder's name begins: while the start delimiter is being
   * skipped `a` lies ahead, afterwards `skipFound` counts the name's
   * characters so far, none of which begins an end delimiter.
   */
  ghost predicate OpenAt(p: string, start: string, end: string, i: nat, st: ScanState, a: int) {
    && NamesDelimited(p, start, end, st.keys)
    && (!st.found ==> st.skipFound == 0)
    && (st.found ==>
          && |start| <= a && Lookahead(p, start, a - |start|)
          && if st.skipChar > 0 then a == i + st.skipChar && st.skipFound == 0
             else a == i - st.skipFound && forall c :: a <= c < i ==> !Lookahead(p, end, c))
  }

  /** Where the open placeholder's name begins after one more step. */
  function NextOpen(p: string, start: string, i: nat, st: ScanState, a: int): int {
    if st.skipChar <= 0 && !st.found && Lookahead(p, start, i) then i + |start| else a
  }

  lemma NamesAppend(p: string, start: string, end: string, keys: seq<Token>, t: Token)
    requires NamesDelimited(p, start, end, keys)
    requires t.Placeholder? ==> exists a, b :: Delimited(p, start, end, t.name, a, b)
    ensures NamesDelimited(p, start, end, keys + [t])
  {
    var keys' := keys + [t];
    forall k | 0 <= k < |keys'| && keys'[k].Placeholder?
      ensures exists a, b :: Delimited(p, start, end, keys'[k].name, a, b)
    {
      if k < |keys| {
        assert keys'[k] == keys[k];
      }
    }
  }

  /** One pass of the scanning loop keeps every placeholder name delimited. */
  lemma StepOpen(p: string, start: string, end: string, i: nat, st: ScanState, a: int)
    requires i < |p| && |start| > 0 && OpenAt(p, start, end, i, st, a)
    ensures OpenAt(p, start, end, i + 1, Step(p, start, end, i, st), NextOpen(p, start, i, st, a))
  {
    var next := Step(p, start, end, i, st);
    if st.skipChar > 0 {
    } else if !st.found && Lookahead(p, start, i) {
      NamesAppend(p, start, end, st.keys, Literal(st.buf));
    } else if st.found && (Lookahead(p, end, i) || i == |p| - 1) {
      var j := if !Lookahead(p, end, i) && i == |p| - 1 then i + 1 else i;
      var key := p[i - st.skipFound .. j];
      assert Delimited(p, start, end, key, a, j);
      NamesAppend(p, start, end, st.keys, Placeholder(key));
      assert next.keys == st.keys + [Placeholder(key)];
    }
  }

  lemma {:induction false} ScanOpen(p: string, start: string, end: string, i: nat, st: ScanState, a: int)
    requires i <= |p| && |start| > 0 && OpenAt(p, start, end, i, st, a)
    ensures NamesDelimited(p, start, end, ScanFrom(p, start, end, i, st).keys)
    decreases |p| - i
  {
    if i < |p| {
      StepOpen(p, start, end, i, st, a);
      ScanOpen(p, start, end, i + 1, Step(p, start, end, i, st), NextOpen(p, start, i, st, a));
    }
  }

  /**
   * Every placeholder `parsePattern` emits is named by the text that
   * directly follows an occurrence of the start delimiter and runs up to
   * the next end delimiter, or to the end of the pattern.
   */
  lemma ParseNames(p: string, start: string, end: string)
    requires |start| > 0
    ensures NamesDelimited(p, start, end, Parse(p, start, end).keys)
  {
    ScanOpen(p, start, end, 0, Initial, 0);
  }

  // ---------------------------------------------------------------------------
  // The extractor
  // ---------------------------------------------------------------------------

  /**
   * The outcome of walking the tokens over a path: whether it matched, the
   * captured values, and (for the proofs) the slice of the path each token
   * consumed.
   */
  datatype Walked = Walked(ok: bool, args: Args, segs: seq<string>)

  /** The delimiter a placeholder at position `k` searches for. */
  function Boundary(keys: seq<Token>, end: string, k: nat): string
    requires k + 1 < |keys|
  {
    match keys[k + 1]
    case Literal(t) => t
    case Placeholder(_) => end
  }

  /** The loop of the `parseURI` closure from token `i` on, with `uri` the unconsumed path. */
  function Walk(keys: seq<Token>, end: string, i: nat, uri: string, u: Args, segs: seq<string>): Walked
    requires i <= |keys|
    decreases |keys| - i
  {
    if i == |keys| then Walked(|u| > 0, u, segs)
    else match keys[i]
      case Literal(t) =>
        if !HasPrefix(uri, t) then Walked(false, map[], segs)
        else Walk(keys, end, i + 1, uri[|t|..], u, segs + [t])
      case Placeholder(n) =>
        if i < |keys| - 1 then
          var idx := IndexOf(uri, Boundary(keys, end, i));
          if idx < 0 then Walked(false, map[], segs)
          else
            var u' := if keys[i + 1].Placeholder? then u[n := [uri[..idx]]] else u;
            Walk(keys, end, i + 1, uri[idx..], u', segs + [uri[..idx]])
        else
          var u' := u[n := [uri]];
          Walked(|u'| > 0, u', segs + [uri])
  }

  /** What `parseURI` returns for `uri`. */
  function Extract(keys: seq<Token>, end: string, uri: string): Walked {
    Walk(keys, end, 0, uri, map[], [])
  }

  /** One step of the walk at a placeholder that is not the last token. */
  lemma WalkAtPlaceholder(keys: seq<Token>, end: string, i: nat, uri: string, u: Args, segs: seq<string>)
    requires i + 1 < |keys| && keys[i].Placeholder?
    ensures var idx := IndexOf(uri, Boundary(keys, end, i));
      idx < 0 ==> Walk(keys, end, i, uri, u, segs) == Walked(false, map[], segs)
    ensures var idx := IndexOf(uri, Boundary(keys, end, i));
      idx >= 0 ==>
        var u' := if keys[i + 1].Placeholder? then u[keys[i].name := [uri[..idx]]] else u;
        Walk(keys, end, i, uri, u, segs) == Walk(keys, end, i + 1, uri[idx..], u', segs + [uri[..idx]])
  {
  }

  /**
   * One pass of the `parseURI` loop (sdk/HTTP_mux.go:479-506) at token `i`:
   * `ok` is false where the closure returns no match, and `seg` is the
   * slice of `uri` the token consumes.
   */
  method ParseStep(keys: seq<Token>, end: string, i: nat, uri: string, u: Args, ghost segs: seq<string>)
    returns (ok: bool, uri': string, u': Args, ghost seg: string)
    requires i < |keys|
    ensures !ok ==> Walk(keys, end, i, uri, u, segs) == Walked(false, map[], segs)
    ensures ok ==> Walk(keys, end, i, uri, u, segs) == Walk(keys, end, i + 1, uri', u', segs + [seg])
  {
    ok, uri', u', seg := true, uri, u, "";
    match keys[i] {
      case Literal(t) =>
        if !HasPrefix(uri, t) {
          return false, uri, u, "";
        }
        uri', seg := uri[|t|..], t;
      case Placeholder(n) =>
        if i < |keys| - 1 {
          WalkAtPlaceholder(keys, end, i, uri, u, segs);
          var idx := 0;
          match keys[i + 1] {
            case Literal(t) =>
              idx := IndexOf(uri, t);
            case Placeholder(_) =>
              idx := IndexOf(uri, end);
              if idx >= 0 {
                u' := u[n := [uri[..idx]]];
              }
          }
          if idx < 0 {
            return false, uri, u, "";
          }
          uri', seg := uri[idx..], uri[..idx];
        } else {
          u', seg := u[n := [uri]], uri;
        }
    }
  }

  /** The `parseURI` closure of a keyed pattern (sdk/HTTP_mux.go:471-508). */
  method ParseURI(keys: seq<Token>, end: string, uri0: string) returns (u: Args, matched: bool)
    ensures matched == Extract(keys, end, uri0).ok
    ensures u == Extract(keys, end, uri0).args
  {
    var uri := uri0;
    u := map[];
    ghost var segs: seq<string> := [];
    var i := 0;
    while i < |keys|
      invariant 0 <= i <= |keys|
      invariant Walk(keys, end, i, uri, u, segs) == Extract(keys, end, uri0)
      decreases |keys| - i
    {
      var ok;
      ghost var seg;
      ok, uri, u, seg := ParseStep(keys, end, i, uri, u, segs);
      if !ok {
        return map[], false;
      }
      segs := segs + [seg];
      i := i + 1;
    }
    matched := |u| > 0;
  }

  // ---------------------------------------------------------------------------
  // What a successful extraction means
  // ---------------------------------------------------------------------------

  /**
   * The consumed slices agree with the tokens: a literal consumed exactly
   * its text, and a placeholder stopped at the first occurrence of the
   * delimiter it searched for.
   */
  ghost predicate Fits(keys: seq<Token>, end: string, segs: seq<string>)
    requires |segs| <= |keys|
  {
    && (forall k :: 0 <= k < |segs| && keys[k].Literal? ==> segs[k] == keys[k].text)
    && (forall k :: 0 <= k < |segs| && k + 1 < |keys| && keys[k].Placeholder? ==>
          FirstOccurrence(segs[k], Boundary(keys, end, k)))
  }

  /** `d` does not occur in `seg + d` before the end of `seg`. */
  ghost predicate FirstOccurrence(seg: string, d: string) {
    forall j :: 0 <= j < |seg| ==> !Lookahead(seg + d, d, j)
  }

  /**
   * Every captured value is, alone, the slice consumed by a placeholder of
   * that name, and that placeholder is the last token or is followed by
   * another placeholder: one followed by a literal records nothing.
   */
  ghost predicate ArgsFrom(keys: seq<Token>, u: Args, segs: seq<string>)
    requires |segs| <= |keys|
  {
    forall n :: n in u ==> exists k :: Recorded(keys, u, segs, n, k)
  }

  /** Placeholder `k`, named `n`, recorded its slice as the value of `n`. */
  ghost predicate Recorded(keys: seq<Token>, u: Args, segs: seq<string>, n: string, k: int)
    requires |segs| <= |keys| && n in u
  {
    && 0 <= k < |segs| && keys[k] == Placeholder(n) && u[n] == [segs[k]]
    && (k + 1 == |keys| || keys[k + 1].Placeholder?)
  }

  /** The invariant of the walk: the slices so far and the unconsumed path make up the whole path. */
  ghost predicate WalkInv(keys: seq<Token>, end: string, uri0: string, i: nat, uri: string, u: Args, segs: seq<string>) {
    && i <= |keys| && |segs| == i
    && Concat(segs) + uri == uri0
    && Fits(keys, end, segs) && ArgsFrom(keys, u, segs)
  }

  /** Appending one slice keeps every earlier capture explained. */
  lemma ArgsFromExtend(keys: seq<Token>, u: Args, segs: seq<string>, seg: string)
    requires |segs| < |keys| && ArgsFrom(keys, u, segs)
    ensures ArgsFrom(keys, u, segs + [seg])
  {
    var segs' := segs + [seg];
    forall n | n in u ensures exists k :: Recorded(keys, u, segs', n, k) {
      var k :| Recorded(keys, u, segs, n, k);
      assert segs'[k] == segs[k];
      assert Recorded(keys, u, segs', n, k);
    }
  }

  /** Recording the slice of placeholder `i` keeps every capture explained. */
  lemma ArgsFromRecord(keys: seq<Token>, u: Args, segs: seq<string>, seg: string)
    requires |segs| < |keys| && keys[|segs|].Placeholder? && ArgsFrom(keys, u, segs)
    requires |segs| + 1 == |keys| || keys[|segs| + 1].Placeholder?
    ensures ArgsFrom(keys, u[keys[|segs|].name := [seg]], segs + [seg])
  {
    var segs' := segs + [seg];
    var n := keys[|segs|].name;
    var u' := u[n := [seg]];
    forall m | m in u' ensures exists k :: Recorded(keys, u', segs', m, k) {
      if m == n {
        assert Recorded(keys, u', segs', m, |segs|);
      } else {
        var k :| Recorded(keys, u, segs, m, k);
        assert segs'[k] == segs[k];
        assert Recorded(keys, u', segs', m, k);
      }
    }
  }

  /** Appending a slice that agrees with its token keeps the slices fitting the tokens. */
  lemma FitsExtend(keys: seq<Token>, end: string, segs: seq<string>, seg: string)
    requires |segs| < |keys| && Fits(keys, end, segs)
    requires keys[|segs|].Literal? ==> seg == keys[|segs|].text
    requires |segs| + 1 < |keys| && keys[|segs|].Placeholder? ==> FirstOccurrence(seg, Boundary(keys, end, |segs|))
    ensures Fits(keys, end, segs + [seg])
  {
    var segs' := segs + [seg];
    forall k | 0 <= k < |segs'| && keys[k].Literal? ensures segs'[k] == keys[k].text {
      if k < |segs| {
        assert segs'[k] == segs[k];
      }
    }
    forall k | 0 <= k < |segs'| && k + 1 < |keys| && keys[k].Placeholder?
      ensures FirstOccurrence(segs'[k], Boundary(keys, end, k))
    {
      if k < |segs| {
        assert segs'[k] == segs[k];
      }
    }
  }

  /** A placeholder records its slice exactly when a placeholder follows it. */
  lemma ArgsFromStep(keys: seq<Token>, u: Args, segs: seq<string>, seg: string)
    requires |segs| + 1 < |keys| && keys[|segs|].Placeholder? && ArgsFrom(keys, u, segs)
    ensures var u' := if keys[|segs| + 1].Placeholder? then u[keys[|segs|].name := [seg]] else u;
      ArgsFrom(keys, u', segs + [seg])
  {
    if keys[|segs| + 1].Placeholder? {
      ArgsFromRecord(keys, u, segs, seg);
    } else {
      ArgsFromExtend(keys, u, segs, seg);
    }
  }

  lemma LiteralStep(keys: seq<Token>, end: string, uri0: string, i: nat, uri: string, u: Args, segs: seq<string>)
    requires WalkInv(keys, end, uri0, i, uri, u, segs)
    requires i < |keys| && keys[i].Literal? && HasPrefix(uri, keys[i].text)
    ensures WalkInv(keys, end, uri0, i + 1, uri[|keys[i].text|..], u, segs + [keys[i].text])
  {
    var t := keys[i].text;
    var rest := uri[|t|..];
    assert uri == t + rest;
    ConcatConsume(segs, t, rest, uri, uri0);
    FitsExtend(keys, end, segs, t);
    ArgsFromExtend(keys, u, segs, t);
  }

  /** The slice before the position `strings.Index` finds does not hold the delimiter. */
  lemma FirstOccurrenceOfIndex(uri: string, d: string)
    requires IndexOf(uri, d) >= 0
    ensures FirstOccurrence(uri[..IndexOf(uri, d)], d)
  {
    var idx := IndexOf(uri, d);
    var seg := uri[..idx];
    var pre := uri[..idx + |d|];
    assert seg + d == pre by {
      assert uri[idx..idx + |d|] == d;
    }
    forall j | 0 <= j < |seg| ensures !Lookahead(seg + d, d, j) {
      assert !Lookahead(uri, d, j);
      assert pre[j..j + |d|] == uri[j..j + |d|];
    }
  }

  lemma PlaceholderStep(keys: seq<Token>, end: string, uri0: string, i: nat, uri: string, u: Args, segs: seq<string>)
    requires WalkInv(keys, end, uri0, i, uri, u, segs)
    requires i + 1 < |keys| && keys[i].Placeholder?
    requires IndexOf(uri, Boundary(keys, end, i)) >= 0
    ensures var idx := IndexOf(uri, Boundary(keys, end, i));
      var u' := if keys[i + 1].Placeholder? then u[keys[i].name := [uri[..idx]]] else u;
      WalkInv(keys, end, uri0, i + 1, uri[idx..], u', segs + [uri[..idx]])
  {
    var d := Boundary(keys, end, i);
    var idx := IndexOf(uri, d);
    var seg := uri[..idx];
    var rest := uri[idx..];
    assert uri == seg + rest;
    ConcatConsume(segs, seg, rest, uri, uri0);
    FirstOccurrenceOfIndex(uri, d);
    FitsExtend(keys, end, segs, seg);
    ArgsFromStep(keys, u, segs, seg);
  }

  /** What a successful walk guarantees, stated for the whole path `uri0`. */
  ghost predicate Explains(keys: seq<Token>, end: string, uri0: string, w: Walked) {
    && |w.segs| == |keys|
    && Fits(keys, end, w.segs)
    && ArgsFrom(keys, w.args, w.segs)
    && HasPrefix(uri0, Concat(w.segs))
    && (keys != [] && keys[|keys| - 1].Placeholder? ==> Concat(w.segs) == uri0)
  }

  lemma DoneExplains(keys: seq<Token>, end: string, uri0: string, uri: string, u: Args, segs: seq<string>)
    requires WalkInv(keys, end, uri0, |keys|, uri, u, segs)
    requires keys != [] ==> keys[|keys| - 1].Literal?
    ensures Explains(keys, end, uri0, Walked(|u| > 0, u, segs))
  {
    assert uri0[..|Concat(segs)|] == Concat(segs);
  }

  lemma LastExplains(keys: seq<Token>, end: string, uri0: string, uri: string, u: Args, segs: seq<string>)
    requires |keys| > 0 && keys[|keys| - 1].Placeholder?
    requires WalkInv(keys, end, uri0, |keys| - 1, uri, u, segs)
    ensures var u' := u[keys[|keys| - 1].name := [uri]];
      Explains(keys, end, uri0, Walked(|u'| > 0, u', segs + [uri]))
  {
    var segs' := segs + [uri];
    assert uri == uri + [];
    ConcatConsume(segs, uri, [], uri, uri0);
    var whole := Concat(segs');
    assert whole == uri0;
    assert uri0[..|whole|] == whole;
    FitsExtend(keys, end, segs, uri);
    ArgsFromRecord(keys, u, segs, uri);
  }

  lemma {:induction false} WalkSound(keys: seq<Token>, end: string, uri0: string,
                                     i: nat, uri: string, u: Args, segs: seq<string>)
    requires WalkInv(keys, end, uri0, i, uri, u, segs)
    requires i < |keys| || keys == [] || keys[|keys| - 1].Literal?
    ensures var w := Walk(keys, end, i, uri, u, segs); w.ok ==> Explains(keys, end, uri0, w)
    decreases |keys| - i
  {
    if i == |keys| {
      DoneExplains(keys, end, uri0, uri, u, segs);
    } else if keys[i].Literal? {
      var t := keys[i].text;
      if HasPrefix(uri, t) {
        LiteralStep(keys, end, uri0, i, uri, u, segs);
        WalkSound(keys, end, uri0, i + 1, uri[|t|..], u, segs + [t]);
      }
    } else if i < |keys| - 1 {
      var idx := IndexOf(uri, Boundary(keys, end, i));
      if idx >= 0 {
        PlaceholderStep(keys, end, uri0, i, uri, u, segs);
        var u' := if keys[i + 1].Placeholder? then u[keys[i].name := [uri[..idx]]] else u;
        WalkSound(keys, end, uri0, i + 1, uri[idx..], u', segs + [uri[..idx]]);
      }
    } else {
      LastExplains(keys, end, uri0, uri, u, segs);
    }
  }

  /**
   * A successful extraction explains the path: one slice per token, literal
   * tokens consumed verbatim, each placeholder stopped at the first
   * occurrence of what follows it, the slices together a prefix of the path
   * (all of it when the last token is a placeholder), and every captured
   * value the slice of a placeholder of that name. At least one value is
   * captured.
   */
  lemma ExtractSound(keys: seq<Token>, end: string, uri: string)
    ensures var w := Extract(keys, end, uri); w.ok ==> |w.args| > 0 && Explains(keys, end, uri, w)
  {
    WalkSound(keys, end, uri, 0, uri, map[], []);
    assert Walk(keys, end, 0, uri, map[], []).ok ==> |Walk(keys, end, 0, uri, map[], []).args| > 0 by {
      WalkCaptures(keys, end, 0, uri, map[], []);
    }
  }

  /** No placeholder is immediately followed by another. */
  predicate NoAdjacentPlaceholders(keys: seq<Token>) {
    forall j :: 0 <= j < |keys| - 1 ==> keys[j].Literal? || keys[j + 1].Literal?
  }

  /**
   * When no two placeholders are adjacent and the last token is one, a
   * successful match captures the last placeholder alone, with the rest of
   * the path as its value.
   */
  lemma OnlyLastCaptured(keys: seq<Token>, end: string, uri: string)
    requires |keys| > 0 && keys[|keys| - 1].Placeholder?
    requires NoAdjacentPlaceholders(keys)
    ensures var w := Extract(keys, end, uri); var name := keys[|keys| - 1].name;
      w.ok ==> && |w.segs| == |keys| && w.args.Keys == {name}
               && w.args[name] == [w.segs[|keys| - 1]] && Concat(w.segs) == uri
  {
    var w := Extract(keys, end, uri);
    ExtractSound(keys, end, uri);
    if w.ok {
      OnlyLastRecorded(keys, w.args, w.segs);
    }
  }

  /** The captures of a walk over tokens with no two adjacent placeholders. */
  lemma OnlyLastRecorded(keys: seq<Token>, u: Args, segs: seq<string>)
    requires |keys| > 0 && keys[|keys| - 1].Placeholder? && |segs| == |keys|
    requires NoAdjacentPlaceholders(keys)
    requires ArgsFrom(keys, u, segs) && |u| > 0
    ensures u.Keys == {keys[|keys| - 1].name} && u[keys[|keys| - 1].name] == [segs[|keys| - 1]]
  {
    var last := |keys| - 1;
    forall n | n in u ensures n == keys[last].name && u[n] == [segs[last]] {
      var j :| Recorded(keys, u, segs, n, j);
      assert j == last;
    }
    var n :| n in u;
  }

  /**
   * The converse of `ExtractSound` for patterns that end in a placeholder and
   * have no two adjacent: any split of the path into slices that agree with
   * the tokens is the one the extractor finds, and the last placeholder
   * captures the last slice.
   */
  lemma ExtractComplete(keys: seq<Token>, end: string, uri: string, segs: seq<string>)
    requires |keys| > 0 && keys[|keys| - 1].Placeholder? && NoAdjacentPlaceholders(keys)
    requires |segs| == |keys| && Fits(keys, end, segs) && Concat(segs) == uri
    ensures var w := Extract(keys, end, uri);
      && w.ok && w.segs == segs
      && w.args == map[keys[|keys| - 1].name := [segs[|keys| - 1]]]
  {
    assert segs[0..] == segs && segs[..0] == [];
    WalkComplete(keys, end, segs, 0, map[]);
  }

  /** `ExtractComplete` from token `i` on, with the slices before `i` consumed. */
  lemma {:induction false} WalkComplete(keys: seq<Token>, end: string, segs: seq<string>, i: nat, u: Args)
    requires |keys| > 0 && keys[|keys| - 1].Placeholder? && NoAdjacentPlaceholders(keys)
    requires |segs| == |keys| && Fits(keys, end, segs) && i < |keys|
    ensures Walk(keys, end, i, Concat(segs[i..]), u, segs[..i]) ==
      Walked(true, u[keys[|keys| - 1].name := [segs[|keys| - 1]]], segs)
    decreases |keys| - i
  {
    if i == |keys| - 1 {
      LastComplete(keys, end, segs, u);
    } else {
      StepComplete(keys, end, segs, i, u);
      WalkComplete(keys, end, segs, i + 1, u);
    }
  }

  /** The last placeholder takes the last slice. */
  lemma LastComplete(keys: seq<Token>, end: string, segs: seq<string>, u: Args)
    requires |keys| > 0 && keys[|keys| - 1].Placeholder? && |segs| == |keys|
    ensures var i := |keys| - 1;
      Walk(keys, end, i, Concat(segs[i..]), u, segs[..i]) == Walked(true, u[keys[i].name := [segs[i]]], segs)
  {
    var i := |keys| - 1;
    assert segs[i..] == [segs[i]];
    assert Concat([segs[i]]) == segs[i] by {
      ConcatAppend([], segs[i]);
    }
    assert segs[..i] + [segs[i]] == segs;
  }

  /** A token that is not the last consumes exactly its slice and records nothing. */
  lemma StepComplete(keys: seq<Token>, end: string, segs: seq<string>, i: nat, u: Args)
    requires NoAdjacentPlaceholders(keys)
    requires |segs| == |keys| && Fits(keys, end, segs) && i + 1 < |keys|
    ensures Walk(keys, end, i, Concat(segs[i..]), u, segs[..i]) ==
      Walk(keys, end, i + 1, Concat(segs[i + 1..]), u, segs[..i + 1])
  {
    var uri := Concat(segs[i..]);
    var seg := segs[i];
    var rest := Concat(segs[i + 1..]);
    ConcatFront(segs[i..]);
    assert segs[i..][1..] == segs[i + 1..];
    assert segs[..i] + [seg] == segs[..i + 1];
    if keys[i].Literal? {
      assert uri[..|seg|] == seg && uri[|seg|..] == rest;
    } else {
      var d := keys[i + 1].text;
      var more := Concat(segs[i + 2..]);
      ConcatFront(segs[i + 1..]);
      assert segs[i + 1..][1..] == segs[i + 2..];
      assert uri == seg + d + more;
      IndexAtFirst(seg, d, more);
      assert uri[..|seg|] == seg && uri[|seg|..] == rest;
      WalkAtPlaceholder(keys, end, i, uri, u, segs[..i]);
    }
  }

  /** `strings.Index` finds the delimiter right after a slice in which it does not occur. */
  lemma IndexAtFirst(seg: string, d: string, more: string)
    requires FirstOccurrence(seg, d)
    ensures IndexOf(seg + d + more, d) == |seg|
  {
    var s := seg + d + more;
    assert s[|seg|..|seg| + |d|] == d;
    assert Lookahead(s, d, |seg|);
    forall j | 0 <= j < |seg| ensures !Lookahead(s, d, j) {
      assert !Lookahead(seg + d, d, j);
      assert s[j..j + |d|] == (seg + d)[j..j + |d|];
    }
  }

  /**
   * Every compiled pattern captures at most its last placeholder: a walk over
   * `parsePattern`'s tokens succeeds only when the last token is a
   * placeholder, and then that placeholder alone is captured, with the rest of
   * the path as its value.
   */
  lemma ParsedCapturesLast(p: string, start: string, end: string, e: string, uri: string)
    ensures var keys := Parse(p, start, end).keys; var w := Extract(keys, e, uri);
      w.ok ==> && |keys| > 0 && keys[|keys| - 1].Placeholder? && |w.segs| == |keys|
               && w.args.Keys == {keys[|keys| - 1].name}
               && w.args[keys[|keys| - 1].name] == [w.segs[|keys| - 1]]
               && Concat(w.segs) == uri
  {
    var keys := Parse(p, start, end).keys;
    var w := Extract(keys, e, uri);
    ParseNoAdjacent(p, start, end);
    ExtractSound(keys, e, uri);
    if w.ok {
      if keys == [] {
        assert false;
      } else if keys[|keys| - 1].Literal? {
        NothingRecordedBeforeLiteral(keys, w.args, w.segs);
      } else {
        OnlyLastCaptured(keys, e, uri);
      }
    }
  }

  /** When the tokens end in a literal and no placeholders are adjacent, nothing is ever recorded. */
  lemma NothingRecordedBeforeLiteral(keys: seq<Token>, u: Args, segs: seq<string>)
    requires |keys| > 0 && keys[|keys| - 1].Literal? && NoAdjacentPlaceholders(keys)
    requires |segs| == |keys| && ArgsFrom(keys, u, segs)
    ensures u == map[]
  {
  }

  lemma {:induction false} WalkCaptures(keys: seq<Token>, end: string, i: nat, uri: string, u: Args, segs: seq<string>)
    requires i <= |keys|
    ensures var w := Walk(keys, end, i, uri, u, segs); w.ok ==> |w.args| > 0
    decreases |keys| - i
  {
    if i < |keys| {
      match keys[i]
      case Literal(t) =>
        if HasPrefix(uri, t) { WalkCaptures(keys, end, i + 1, uri[|t|..], u, segs + [t]); }
      case Placeholder(n) =>
        if i < |keys| - 1 {
          var idx := IndexOf(uri, Boundary(keys, end, i));
          if idx >= 0 {
            var u' := if keys[i + 1].Placeholder? then u[n := [uri[..idx]]] else u;
            WalkCaptures(keys, end, i + 1, uri[idx..], u', segs + [uri[..idx]]);
          }
        }
    }
  }

  /** Without placeholders nothing is captured, so a token list of literals alone never matches. */
  lemma {:induction false} LiteralsNeverMatch(keys: seq<Token>, end: string, i: nat, uri: string, segs: seq<string>)
    requires i <= |keys|
    requires forall k :: i <= k < |keys| ==> keys[k].Literal?
    ensures !Walk(keys, end, i, uri, map[], segs).ok
    decreases |keys| - i
  {
    if i < |keys| {
      var t := keys[i].text;
      if HasPrefix(uri, t) { LiteralsNeverMatch(keys, end, i + 1, uri[|t|..], segs + [t]); }
    }
  }
}
