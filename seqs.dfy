/** Python's list comprehension with a condition, `[x for x in s if p(x)]`, as a
    function on sequences, with the facts the record operations rely on. */
module Seqs {

  /** The elements of `s` that satisfy `p`, in their original order. */
  function Filter<T>(s: seq<T>, p: T -> bool): (r: seq<T>)
    ensures |r| <= |s|
    ensures forall x :: x in r ==> x in s && p(x)
  {
    if s == [] then []
    else (if p(s[0]) then [s[0]] else []) + Filter(s[1..], p)
  }

  /** `r` can be obtained from `s` by deleting elements, without reordering. */
  ghost predicate IsSubsequence<T>(r: seq<T>, s: seq<T>)
  {
    r == [] || (s != [] && (if r[0] == s[0] then IsSubsequence(r[1..], s[1..]) else IsSubsequence(r, s[1..])))
  }

  /** A sequence is what comes before position `k`, the element at `k`, and what follows. */
  lemma SplitAround<T>(s: seq<T>, k: nat)
    requires k < |s|
    ensures s == s[..k] + [s[k]] + s[k + 1..]
  {
  }

  /** Nothing that satisfies `p` is left behind. */
  lemma {:induction false} FilterComplete<T>(s: seq<T>, p: T -> bool, x: T)
    requires x in s && p(x)
    ensures x in Filter(s, p)
  {
    if s[0] != x {
      FilterComplete(s[1..], p, x);
    }
  }

  /** The comprehension keeps the original order. */
  lemma {:induction false} FilterIsSubsequence<T>(s: seq<T>, p: T -> bool)
    ensures IsSubsequence(Filter(s, p), s)
  {
    if s != [] {
      FilterIsSubsequence(s[1..], p);
      var r := Filter(s, p);
      if p(s[0]) {
        assert r == [s[0]] + Filter(s[1..], p);
        assert r[1..] == Filter(s[1..], p);
      } else {
        assert r == Filter(s[1..], p);
        assert r == [] || r[0] != s[0] by {
          if r != [] {
            assert r[0] in r;
          }
        }
      }
    }
  }

  /** The comprehension over a concatenation is the concatenation of the comprehensions. */
  lemma {:induction false} FilterAppend<T>(a: seq<T>, b: seq<T>, p: T -> bool)
    ensures Filter(a + b, p) == Filter(a, p) + Filter(b, p)
  {
    if a == [] {
      assert a + b == b;
    } else {
      assert (a + b)[0] == a[0];
      assert (a + b)[1..] == a[1..] + b;
      FilterAppend(a[1..], b, p);
    }
  }

  lemma FilterSingleton<T>(x: T, p: T -> bool)
    ensures Filter([x], p) == if p(x) then [x] else []
  {
    assert [x][1..] == [];
  }

  /** When every element satisfies `p`, nothing is removed. */
  lemma {:induction false} FilterKeepsAll<T>(s: seq<T>, p: T -> bool)
    requires forall i :: 0 <= i < |s| ==> p(s[i])
    ensures Filter(s, p) == s
  {
    if s != [] {
      FilterKeepsAll(s[1..], p);
      assert s == [s[0]] + s[1..];
    }
  }

  /** The comprehension has the length of `s` exactly when every element satisfies `p`. */
  lemma {:induction false} FilterSameLength<T>(s: seq<T>, p: T -> bool)
    ensures |Filter(s, p)| == |s| <==> forall i :: 0 <= i < |s| ==> p(s[i])
  {
    if s != [] {
      FilterSameLength(s[1..], p);
      assert forall i :: 1 <= i < |s| ==> s[i] == s[1..][i - 1];
      if !p(s[0]) {
        assert |Filter(s, p)| == |Filter(s[1..], p)| <= |s| - 1;
      }
    }
  }

  /** The comprehension is empty exactly when no element satisfies `p`. */
  lemma {:induction false} FilterEmpty<T>(s: seq<T>, p: T -> bool)
    ensures Filter(s, p) == [] <==> forall i :: 0 <= i < |s| ==> !p(s[i])
  {
    if s != [] {
      FilterEmpty(s[1..], p);
      assert forall i :: 1 <= i < |s| ==> s[i] == s[1..][i - 1];
    }
  }

  /** Filtering an already filtered sequence again changes nothing. */
  lemma FilterIdempotent<T>(s: seq<T>, p: T -> bool)
    ensures Filter(Filter(s, p), p) == Filter(s, p)
  {
    var r := Filter(s, p);
    assert forall i :: 0 <= i < |r| ==> r[i] in r;
    FilterKeepsAll(r, p);
  }

  /** The comprehension over `before + [x] + after`, one part at a time. */
  lemma FilterAround<T>(before: seq<T>, x: T, after: seq<T>, p: T -> bool)
    ensures Filter(before + [x] + after, p) == Filter(before, p) + (if p(x) then [x] else []) + Filter(after, p)
  {
    FilterAppend(before + [x], after, p);
    FilterAppend(before, [x], p);
    FilterSingleton(x, p);
  }

  /** A condition that has the same value on the first `k` elements has it on `s[..k]`. */
  lemma PrefixAgrees<T>(s: seq<T>, p: T -> bool, k: nat, want: bool)
    requires k <= |s|
    requires forall j :: 0 <= j < k ==> p(s[j]) == want
    ensures forall j :: 0 <= j < |s[..k]| ==> p(s[..k][j]) == want
  {
  }

  /** A condition that has the same value on the elements from `k` on has it on `s[k..]`. */
  lemma SuffixAgrees<T>(s: seq<T>, p: T -> bool, k: nat, want: bool)
    requires k <= |s|
    requires forall j :: k <= j < |s| ==> p(s[j]) == want
    ensures forall j :: 0 <= j < |s[k..]| ==> p(s[k..][j]) == want
  {
    forall j | 0 <= j < |s[k..]| ensures p(s[k..][j]) == want {
      assert s[k..][j] == s[k + j];
    }
  }

  /** When exactly the element at `i` fails `p`, the comprehension removes that element
      and nothing else. */
  lemma FilterDropsOne<T>(s: seq<T>, p: T -> bool, i: nat)
    requires i < |s| && !p(s[i])
    requires forall j :: 0 <= j < |s| && j != i ==> p(s[j])
    ensures Filter(s, p) == s[..i] + s[i + 1..]
  {
    SplitAround(s, i);
    PrefixAgrees(s, p, i, true);
    SuffixAgrees(s, p, i + 1, true);
    FilterKeepsAll(s[..i], p);
    FilterKeepsAll(s[i + 1..], p);
    FilterAround(s[..i], s[i], s[i + 1..], p);
    assert s[..i] + [] == s[..i];
  }

  /** When exactly the element at `i` satisfies `p`, the comprehension is that element alone. */
  lemma FilterOnlyOne<T>(s: seq<T>, p: T -> bool, i: nat)
    requires i < |s| && p(s[i])
    requires forall j :: 0 <= j < |s| && j != i ==> !p(s[j])
    ensures Filter(s, p) == [s[i]]
  {
    SplitAround(s, i);
    PrefixAgrees(s, p, i, false);
    SuffixAgrees(s, p, i + 1, false);
    FilterEmpty(s[..i], p);
    FilterEmpty(s[i + 1..], p);
    FilterAround(s[..i], s[i], s[i + 1..], p);
    assert [] + [s[i]] + [] == [s[i]];
  }
}
