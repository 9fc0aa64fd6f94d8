/**
 * The few string operations the router uses from Go's `strings` package,
 * over `seq<char>` with ASCII semantics.
 */
module Text {

  /** ASCII lower-casing of one character (`unicode.ToLower` on ASCII input). */
  function LowerChar(c: char): (d: char)
    ensures 'A' <= c <= 'Z' ==> d as int == c as int + 32
    ensures !('A' <= c <= 'Z') ==> d == c
    ensures !('A' <= d <= 'Z')
  {
    if 'A' <= c <= 'Z' then (c as int + 32) as char else c
  }

  /** `strings.ToLower`, restricted to ASCII. */
  function Lower(s: string): (t: string)
    ensures |t| == |s|
    ensures forall i :: 0 <= i < |s| ==> t[i] == LowerChar(s[i])
  {
    seq(|s|, i requires 0 <= i < |s| => LowerChar(s[i]))
  }

  lemma LowerIdempotent(s: string)
    ensures Lower(Lower(s)) == Lower(s)
  {
    var t := Lower(s);
    assert forall i :: 0 <= i < |t| ==> LowerChar(t[i]) == t[i];
  }

  /** `strings.HasPrefix(s, prefix)`. */
  predicate HasPrefix(s: string, prefix: string) {
    |prefix| <= |s| && s[..|prefix|] == prefix
  }

  /** The parser's `lookahead(src, sub, i)`: `sub` occurs in `src` at byte offset `i`. */
  predicate Lookahead(src: string, sub: string, i: int) {
    0 <= i && i + |sub| <= |src| && src[i..i + |sub|] == sub
  }

  /** A one-character delimiter occurs exactly where that character is. */
  lemma LookaheadChar(src: string, c: char)
    ensures forall i :: Lookahead(src, [c], i) <==> 0 <= i < |src| && src[i] == c
  {
    forall i | 0 <= i < |src|
      ensures Lookahead(src, [c], i) <==> src[i] == c
    {
      assert src[i..i + 1] == [src[i]];
    }
  }

  /** `sub` occurs somewhere in `s`. */
  ghost predicate Contains(s: string, sub: string) {
    exists k :: Lookahead(s, sub, k)
  }

  /** `strings.Index(s, sub)`: the first offset at which `sub` occurs, or -1. */
  function IndexOf(s: string, sub: string): (idx: int)
    ensures -1 <= idx <= |s|
    ensures idx == -1 <==> !Contains(s, sub)
    ensures idx >= 0 ==> Lookahead(s, sub, idx)
    ensures idx >= 0 ==> forall k :: 0 <= k < idx ==> !Lookahead(s, sub, k)
  {
    IndexFrom(s, sub, 0)
  }

  function IndexFrom(s: string, sub: string, from: nat): (idx: int)
    requires forall k :: 0 <= k < from ==> !Lookahead(s, sub, k)
    ensures -1 <= idx <= |s|
    ensures idx == -1 <==> !Contains(s, sub)
    ensures idx >= 0 ==> Lookahead(s, sub, idx)
    ensures idx >= 0 ==> forall k :: 0 <= k < idx ==> !Lookahead(s, sub, k)
    decreases |s| + 1 - from
  {
    if from + |sub| > |s| then
      assert forall k :: Lookahead(s, sub, k) ==> k < from;
      -1
    else if s[from..from + |sub|] == sub then
      assert Lookahead(s, sub, from);
      from
    else IndexFrom(s, sub, from + 1)
  }

  /** Concatenation of a sequence of strings. */
  function Concat(parts: seq<string>): (s: string)
    ensures parts == [] ==> s == []
  {
    if parts == [] then [] else Concat(parts[..|parts| - 1]) + parts[|parts| - 1]
  }

  lemma {:induction false} ConcatAppend(parts: seq<string>, x: string)
    ensures Concat(parts + [x]) == Concat(parts) + x
  {
    assert (parts + [x])[..|parts|] == parts;
  }

  /** `Concat` read from the front: the first part, then the others. */
  lemma {:induction false} ConcatFront(parts: seq<string>)
    requires |parts| > 0
    ensures Concat(parts) == parts[0] + Concat(parts[1..])
  {
    var n := |parts|;
    if n == 1 {
      assert parts[..0] == [] && parts[1..] == [];
    } else {
      var init := parts[..n - 1];
      var last := parts[n - 1];
      ConcatFront(init);
      var tail := parts[1..];
      assert tail[..|tail| - 1] == init[1..];
      assert tail[|tail| - 1] == last;
      var c := Concat(init[1..]);
      assert (parts[0] + c) + last == parts[0] + (c + last);
    }
  }

  /** Moving a consumed prefix `x` of the rest `uri` onto the parts consumed so far. */
  lemma ConcatConsume(parts: seq<string>, x: string, rest: string, uri: string, whole: string)
    requires Concat(parts) + uri == whole && uri == x + rest
    ensures Concat(parts + [x]) + rest == whole
  {
    ConcatAppend(parts, x);
    var c := Concat(parts);
    assert (c + x) + rest == c + (x + rest);
  }
}
