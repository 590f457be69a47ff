/** The few string operations of Python's `str` that the record manager uses
    (`isspace`, `isalpha`, `lower`, `strip`, `split()` and the substring test `in`),
    restricted to ASCII. */
module Text {

  /** `str.isspace` on one ASCII character: tab, line feed, vertical tab, form feed,
      carriage return, the separators 0x1C-0x1F and the space. */
  predicate IsSpace(c: char) {
    ('\t' <= c <= '\r') || ('\U{1C}' <= c <= ' ')
  }

  /** `str.isalpha` on one ASCII character. */
  predicate IsLetter(c: char) {
    ('A' <= c <= 'Z') || ('a' <= c <= 'z')
  }

  /** `str.isalpha`: at least one character, and only letters. */
  predicate IsAlpha(s: string) {
    |s| > 0 && forall i :: 0 <= i < |s| ==> IsLetter(s[i])
  }

  predicate AllSpace(s: string) {
    forall i :: 0 <= i < |s| ==> IsSpace(s[i])
  }

  predicate NoSpace(s: string) {
    forall i :: 0 <= i < |s| ==> !IsSpace(s[i])
  }

  /** `str.lower` on one ASCII character. */
  function LowerChar(c: char): char {
    if 'A' <= c <= 'Z' then (c as int + 32) as char else c
  }

  /** `str.lower`. */
  function Lower(s: string): string {
    seq(|s|, i requires 0 <= i < |s| => LowerChar(s[i]))
  }

  /** Removes the leading whitespace (the left half of `str.strip`). */
  function TrimStart(s: string): (r: string)
    ensures |r| <= |s| && r == s[|s| - |r|..]
    ensures AllSpace(s[..|s| - |r|])
    ensures r == [] || !IsSpace(r[0])
  {
    if s != [] && IsSpace(s[0]) then
      var r := TrimStart(s[1..]);
      TrimStartStep(s, r);
      r
    else s
  }

  /** Removes the trailing whitespace (the right half of `str.strip`). */
  function TrimEnd(s: string): (r: string)
    ensures |r| <= |s| && r == s[..|r|]
    ensures AllSpace(s[|r|..])
    ensures r == [] || !IsSpace(r[|r| - 1])
  {
    if s != [] && IsSpace(s[|s| - 1]) then
      var r := TrimEnd(s[..|s| - 1]);
      TrimEndStep(s, r);
      r
    else s
  }

  /** One step of TrimStart: dropping a leading whitespace character. */
  lemma TrimStartStep(s: string, r: string)
    requires s != [] && IsSpace(s[0])
    requires |r| <= |s| - 1 && r == s[1..][|s| - 1 - |r|..] && AllSpace(s[1..][..|s| - 1 - |r|])
    ensures r == s[|s| - |r|..] && AllSpace(s[..|s| - |r|])
  {
    var k := |s| - |r|;
    assert s[1..][k - 1..] == s[k..];
    forall i | 0 <= i < k ensures IsSpace(s[..k][i]) {
      if i > 0 {
        assert s[..k][i] == s[1..][..k - 1][i - 1];
      }
    }
  }

  /** One step of TrimEnd: dropping a trailing whitespace character. */
  lemma TrimEndStep(s: string, r: string)
    requires s != [] && IsSpace(s[|s| - 1])
    requires |r| <= |s| - 1 && r == s[..|s| - 1][..|r|] && AllSpace(s[..|s| - 1][|r|..])
    ensures r == s[..|r|] && AllSpace(s[|r|..])
  {
    var k := |r|;
    assert s[..|s| - 1][..k] == s[..k];
    forall i | 0 <= i < |s| - k ensures IsSpace(s[k..][i]) {
      if i < |s| - 1 - k {
        assert s[k..][i] == s[..|s| - 1][k..][i];
      }
    }
  }

  /** `str.strip()` with no argument. */
  function Strip(s: string): (r: string)
    ensures r == [] || (!IsSpace(r[0]) && !IsSpace(r[|r| - 1]))
  {
    TrimEnd(TrimStart(s))
  }

  /** Length of the run of non-whitespace characters that begins `s`. */
  function TokenLength(s: string): (n: nat)
    ensures n <= |s| && NoSpace(s[..n])
    ensures n == |s| || IsSpace(s[n])
  {
    if s == [] || IsSpace(s[0]) then 0 else 1 + TokenLength(s[1..])
  }

  /** `str.split()` with no argument: the maximal runs of non-whitespace characters,
      in order; leading, trailing and repeated whitespace produce no empty words. */
  function Split(s: string): (words: seq<string>)
    ensures forall k :: 0 <= k < |words| ==> |words[k]| > 0 && NoSpace(words[k])
  {
    if s == [] then []
    else if IsSpace(s[0]) then Split(s[1..])
    else
      var n := TokenLength(s);
      [s[..n]] + Split(s[n..])
  }

  /** `q in s` for strings: `q` occurs in `s` at position `i`. */
  predicate OccursAt(s: string, q: string, i: int) {
    0 <= i && i + |q| <= |s| && s[i..i + |q|] == q
  }

  /** `q in s` for strings. */
  predicate Contains(s: string, q: string) {
    exists i | 0 <= i <= |s| - |q| :: OccursAt(s, q, i)
  }

  // ---------------------------------------------------------------------
  // Lemmas
  // ---------------------------------------------------------------------

  lemma AlphaHasNoSpace(s: string)
    requires IsAlpha(s)
    ensures NoSpace(s)
  {
  }

  /** Lowering changes letters only: it keeps whitespace whitespace and
      non-whitespace non-whitespace. */
  lemma LowerKeepsSpace(s: string)
    ensures |Lower(s)| == |s|
    ensures forall i :: 0 <= i < |s| ==> (IsSpace(Lower(s)[i]) <==> IsSpace(s[i]))
  {
  }

  /** Lowering works character by character, so it distributes over concatenation. */
  lemma LowerAppend(a: string, b: string)
    ensures Lower(a + b) == Lower(a) + Lower(b)
  {
    assert forall i :: 0 <= i < |a + b| ==> Lower(a + b)[i] == (Lower(a) + Lower(b))[i];
  }

  /** Strip removes exactly a whitespace prefix and a whitespace suffix. */
  lemma StripShape(s: string) returns (front: string, back: string)
    ensures s == front + Strip(s) + back
    ensures AllSpace(front) && AllSpace(back)
  {
    var t := TrimStart(s);
    var r := TrimEnd(t);
    front, back := TrimParts(s, t, r);
    Join(s, front, t, r, back);
  }

  /** The two halves of StripShape, one trim at a time. */
  lemma TrimParts(s: string, t: string, r: string) returns (front: string, back: string)
    requires t == TrimStart(s) && r == TrimEnd(t)
    ensures s == front + t && t == r + back
    ensures AllSpace(front) && AllSpace(back)
  {
    front := s[..|s| - |t|];
    CutAt(s, |s| - |t|);
    back := t[|r|..];
    CutAt(t, |r|);
  }

  lemma Join<T>(s: seq<T>, front: seq<T>, t: seq<T>, r: seq<T>, back: seq<T>)
    requires s == front + t && t == r + back
    ensures s == front + r + back
  {
  }

  lemma CutAt(s: string, k: nat)
    requires k <= |s|
    ensures s == s[..k] + s[k..]
  {
  }

  /** The converse of StripShape: surrounding a string whose ends are not whitespace with
      whitespace on both sides, and stripping, gives the string back. */
  lemma {:induction false} StripOf(front: string, t: string, back: string)
    requires AllSpace(front) && AllSpace(back)
    requires t == [] || (!IsSpace(t[0]) && !IsSpace(t[|t| - 1]))
    ensures Strip(front + t + back) == t
  {
    assert front + t + back == front + (t + back);
    if t == [] {
      assert AllSpace(front + back);
      assert front + back + [] == front + back;
      TrimStartOf(front + back, []);
    } else {
      TrimStartOf(front, t + back);
      TrimEndOf(t, back);
    }
  }

  lemma {:induction false} TrimStartOf(front: string, rest: string)
    requires AllSpace(front)
    requires rest == [] || !IsSpace(rest[0])
    ensures TrimStart(front + rest) == rest
  {
    if front != [] {
      assert (front + rest)[1..] == front[1..] + rest;
      TrimStartOf(front[1..], rest);
    }
  }

  lemma {:induction false} TrimEndOf(t: string, back: string)
    requires AllSpace(back)
    requires t == [] || !IsSpace(t[|t| - 1])
    ensures TrimEnd(t + back) == t
  {
    if back != [] {
      var n := |back| - 1;
      assert (t + back)[..|t + back| - 1] == t + back[..n];
      TrimEndOf(t, back[..n]);
    } else {
      assert t + back == t;
    }
  }

  /** A string that neither starts nor ends with whitespace is its own strip. */
  lemma StripNoEnds(t: string)
    requires t == [] || (!IsSpace(t[0]) && !IsSpace(t[|t| - 1]))
    ensures Strip(t) == t
  {
    assert [] + t + [] == t;
    StripOf([], t, []);
  }

  /** Stripping twice is stripping once. */
  lemma StripIdempotent(s: string)
    ensures Strip(Strip(s)) == Strip(s)
  {
    StripNoEnds(Strip(s));
  }

  /** Leading whitespace never changes the words. */
  lemma {:induction false} SplitSkipsSpace(w: string, rest: string)
    requires AllSpace(w)
    ensures Split(w + rest) == Split(rest)
  {
    if w != [] {
      assert (w + rest)[0] == w[0];
      assert (w + rest)[1..] == w[1..] + rest;
      SplitSkipsSpace(w[1..], rest);
    } else {
      assert w + rest == rest;
    }
  }

  lemma {:induction false} TokenLengthOf(t: string, rest: string)
    requires NoSpace(t)
    requires rest == [] || IsSpace(rest[0])
    ensures TokenLength(t + rest) == |t|
  {
    if t != [] {
      assert (t + rest)[1..] == t[1..] + rest;
      TokenLengthOf(t[1..], rest);
    }
  }

  /** A word followed by whitespace (or by nothing) is the first word. */
  lemma SplitWord(t: string, rest: string)
    requires |t| > 0 && NoSpace(t)
    requires rest == [] || IsSpace(rest[0])
    ensures Split(t + rest) == [t] + Split(rest)
  {
    TokenLengthOf(t, rest);
    var s := t + rest;
    assert s[..|t|] == t && s[|t|..] == rest;
  }

  /** A string has no words exactly when it is all whitespace. */
  lemma {:induction false} SplitEmpty(s: string)
    ensures Split(s) == [] <==> AllSpace(s)
  {
    if s != [] && IsSpace(s[0]) {
      SplitEmpty(s[1..]);
      assert AllSpace(s) <==> AllSpace(s[1..]);
    }
  }

  /** The first word of a string is preceded by whitespace only and followed by
      whitespace or by the end of the string; what follows holds the other words. */
  lemma {:induction false} SplitFirst(s: string) returns (front: string, rest: string)
    requires Split(s) != []
    ensures s == front + Split(s)[0] + rest
    ensures AllSpace(front)
    ensures rest == [] || IsSpace(rest[0])
    ensures Split(rest) == Split(s)[1..]
  {
    if IsSpace(s[0]) {
      var f, r := SplitFirst(s[1..]);
      front, rest := [s[0]] + f, r;
      PrependSpace(s, f, Split(s)[0], r);
    } else {
      var n := TokenLength(s);
      front, rest := [], s[n..];
      FirstWordAt(s, n);
      CutAt(s, n);
      assert [] + s[..n] == s[..n];
    }
  }

  lemma PrependSpace(s: string, f: string, w: string, r: string)
    requires s != [] && IsSpace(s[0]) && AllSpace(f) && s[1..] == f + w + r
    ensures s == [s[0]] + f + w + r && AllSpace([s[0]] + f)
  {
    assert s == [s[0]] + s[1..];
  }

  lemma FirstWordAt(s: string, n: nat)
    requires s != [] && !IsSpace(s[0]) && n == TokenLength(s)
    ensures Split(s) == [s[..n]] + Split(s[n..])
    ensures Split(s)[0] == s[..n] && Split(s)[1..] == Split(s[n..])
  {
  }

  /** The empty string occurs in every string (`"" in s` is always true). */
  lemma ContainsEmpty(s: string)
    ensures Contains(s, [])
  {
    assert OccursAt(s, [], 0);
  }

  /** Every string occurs in itself. */
  lemma ContainsSelf(s: string)
    ensures Contains(s, s)
  {
    assert OccursAt(s, s, 0);
  }
}
