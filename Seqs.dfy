/**
 * Sequence operations shared by the string and array extensions: selecting
 * the elements of a class (what `gsub(/[^class]/, "")` and `Array#select`
 * compute), the maximal runs of a class (what `scan(/[class]+/)` and
 * whitespace `split` compute), joining and reversing.
 */
module Seqs {

  /** Every element of s satisfies p. */
  predicate All<T>(s: seq<T>, p: T -> bool) {
    forall i :: 0 <= i < |s| ==> p(s[i])
  }

  /** The elements of s that satisfy p, in their original order. */
  function Filter<T>(s: seq<T>, p: T -> bool): (r: seq<T>)
    ensures |r| <= |s|
    ensures All(r, p)
    decreases |s|
  {
    if s == [] then []
    else (if p(s[0]) then [s[0]] else []) + Filter(s[1..], p)
  }

  /** r can be obtained from s by deleting elements (order is kept). */
  predicate IsSubsequence<T(==)>(r: seq<T>, s: seq<T>)
    decreases |s|
  {
    if r == [] then true
    else if s == [] then false
    else (r[0] == s[0] && IsSubsequence(r[1..], s[1..])) || IsSubsequence(r, s[1..])
  }

  lemma {:induction false} FilterAppend<T>(a: seq<T>, b: seq<T>, p: T -> bool)
    ensures Filter(a + b, p) == Filter(a, p) + Filter(b, p)
    decreases |a|
  {
    if a == [] {
      assert a + b == b;
    } else {
      FilterAppend(a[1..], b, p);
      var head := if p(a[0]) then [a[0]] else [];
      assert (a + b)[0] == a[0] && (a + b)[1..] == a[1..] + b;
      assert Filter(a + b, p) == head + (Filter(a[1..], p) + Filter(b, p));
      AppendAssoc(head, Filter(a[1..], p), Filter(b, p));
    }
  }

  /** Selecting keeps everything exactly when everything is in the class. */
  lemma {:induction false} FilterKeepsAll<T>(s: seq<T>, p: T -> bool)
    ensures Filter(s, p) == s <==> All(s, p)
    decreases |s|
  {
    if s != [] {
      FilterKeepsAll(s[1..], p);
      if All(s, p) {
        assert All(s[1..], p) by {
          forall i | 0 <= i < |s[1..]| ensures p(s[1..][i]) { assert s[1..][i] == s[i + 1]; }
        }
      }
    }
  }

  /** Selecting drops everything exactly when nothing is in the class. */
  lemma {:induction false} FilterDropsAll<T>(s: seq<T>, p: T -> bool)
    ensures Filter(s, p) == [] <==> All(s, x => !p(x))
    decreases |s|
  {
    if s != [] {
      FilterDropsAll(s[1..], p);
      if All(s, x => !p(x)) {
        assert All(s[1..], x => !p(x)) by {
          forall i | 0 <= i < |s[1..]| ensures !p(s[1..][i]) { assert s[1..][i] == s[i + 1]; }
        }
      }
    }
  }

  /** Selecting twice with the same class is selecting once. */
  lemma FilterIdempotent<T>(s: seq<T>, p: T -> bool)
    ensures Filter(Filter(s, p), p) == Filter(s, p)
  {
    FilterKeepsAll(Filter(s, p), p);
  }

  /** An element survives selection exactly when it occurs in s and is in the class. */
  lemma {:induction false} FilterMembership<T>(s: seq<T>, p: T -> bool, x: T)
    ensures x in Filter(s, p) <==> x in s && p(x)
    decreases |s|
  {
    if s != [] {
      FilterMembership(s[1..], p, x);
      assert s == [s[0]] + s[1..];
    }
  }

  /**
   * Selection keeps every occurrence of a selected element and none of the
   * others: each element occurs in the result as often as in s when it is in
   * the class, and not at all otherwise.
   */
  lemma {:induction false} FilterMultiset<T>(s: seq<T>, p: T -> bool, x: T)
    ensures multiset(Filter(s, p))[x] == if p(x) then multiset(s)[x] else 0
    decreases |s|
  {
    if s != [] {
      FilterMultiset(s[1..], p, x);
      var head := if p(s[0]) then [s[0]] else [];
      assert s == [s[0]] + s[1..];
      assert multiset(s) == multiset([s[0]]) + multiset(s[1..]);
      assert multiset(Filter(s, p)) == multiset(head) + multiset(Filter(s[1..], p));
    }
  }

  /** Selection preserves order: its result is a subsequence of its input. */
  lemma {:induction false} FilterIsSubsequence<T>(s: seq<T>, p: T -> bool)
    ensures IsSubsequence(Filter(s, p), s)
    decreases |s|
  {
    if s != [] {
      FilterIsSubsequence(s[1..], p);
      var r := Filter(s, p);
      if p(s[0]) {
        assert r == [s[0]] + Filter(s[1..], p);
        assert r[1..] == Filter(s[1..], p);
      } else {
        assert r == Filter(s[1..], p);
      }
    }
  }

  /** Selecting a class and its complement splits the input: the lengths add up. */
  lemma {:induction false} FilterComplementLength<T>(s: seq<T>, p: T -> bool, q: T -> bool)
    requires forall x :: q(x) <==> !p(x)
    ensures |Filter(s, p)| + |Filter(s, q)| == |s|
    decreases |s|
  {
    if s != [] {
      FilterComplementLength(s[1..], p, q);
    }
  }

  /** Selection only depends on the class membership of the elements present. */
  lemma {:induction false} FilterCongruent<T>(s: seq<T>, p: T -> bool, q: T -> bool)
    requires forall i :: 0 <= i < |s| ==> (p(s[i]) <==> q(s[i]))
    ensures Filter(s, p) == Filter(s, q)
    decreases |s|
  {
    if s != [] {
      FilterCongruent(s[1..], p, q);
    }
  }

  /** Length of the longest prefix of s whose elements all satisfy p. */
  function SpanLength<T>(s: seq<T>, p: T -> bool): (k: nat)
    ensures k <= |s|
    ensures forall i :: 0 <= i < k ==> p(s[i])
    ensures k < |s| ==> !p(s[k])
    decreases |s|
  {
    if s == [] || !p(s[0]) then 0 else 1 + SpanLength(s[1..], p)
  }

  /**
   * The maximal runs of consecutive elements satisfying p, left to right:
   * what a left-to-right scan for `[class]+` returns.
   */
  function Runs<T>(s: seq<T>, p: T -> bool): (r: seq<seq<T>>)
    ensures forall i :: 0 <= i < |r| ==> |r[i]| > 0 && All(r[i], p)
    decreases |s|
  {
    if s == [] then []
    else if !p(s[0]) then Runs(s[1..], p)
    else
      var k := SpanLength(s, p);
      [s[..k]] + Runs(s[k..], p)
  }

  /** Concatenation of a sequence of sequences. */
  function Flatten<T>(ss: seq<seq<T>>): seq<T> {
    if ss == [] then [] else ss[0] + Flatten(ss[1..])
  }

  lemma {:induction false} FlattenAppend<T>(a: seq<seq<T>>, b: seq<seq<T>>)
    ensures Flatten(a + b) == Flatten(a) + Flatten(b)
  {
    if a == [] {
      assert a + b == b;
    } else {
      assert (a + b)[1..] == a[1..] + b;
      FlattenAppend(a[1..], b);
    }
  }

  /** The runs, put back together, are exactly the selected elements. */
  lemma {:induction false} RunsFlatten<T>(s: seq<T>, p: T -> bool)
    ensures Flatten(Runs(s, p)) == Filter(s, p)
    decreases |s|
  {
    if s != [] {
      if !p(s[0]) {
        RunsFlatten(s[1..], p);
      } else {
        var k := SpanLength(s, p);
        RunsFlatten(s[k..], p);
        assert s == s[..k] + s[k..];
        FilterAppend(s[..k], s[k..], p);
        FilterKeepsAll(s[..k], p);
        assert Flatten(Runs(s, p)) == s[..k] + Flatten(Runs(s[k..], p));
      }
    }
  }

  /** A run that stops before the end of a stops at the same place in a + b. */
  lemma {:induction false} SpanLengthAppend<T>(a: seq<T>, b: seq<T>, p: T -> bool)
    requires SpanLength(a, p) < |a| || (b != [] && !p(b[0]))
    ensures SpanLength(a + b, p) == SpanLength(a, p)
    decreases |a|
  {
    if a == [] {
      assert a + b == b;
    } else if p(a[0]) {
      assert (a + b)[1..] == a[1..] + b;
      SpanLengthAppend(a[1..], b, p);
    }
  }

  /** Without an element of the class there are no runs. */
  lemma {:induction false} RunsNone<T>(s: seq<T>, p: T -> bool)
    requires forall i :: 0 <= i < |s| ==> !p(s[i])
    ensures Runs(s, p) == []
    decreases |s|
  {
    if s != [] {
      RunsNone(s[1..], p);
    }
  }

  /** Elements outside the class in front contribute no run. */
  lemma {:induction false} RunsSkip<T>(x: seq<T>, rest: seq<T>, p: T -> bool)
    requires forall i :: 0 <= i < |x| ==> !p(x[i])
    ensures Runs(x + rest, p) == Runs(rest, p)
    decreases |x|
  {
    if x != [] {
      assert (x + rest)[0] == x[0] && (x + rest)[1..] == x[1..] + rest;
      assert Runs(x + rest, p) == Runs(x[1..] + rest, p);
      RunsSkip(x[1..], rest, p);
    } else {
      assert x + rest == rest;
    }
  }

  /** A maximal run in front is the first run. */
  lemma RunsLead<T>(d: seq<T>, rest: seq<T>, p: T -> bool)
    requires |d| > 0 && All(d, p)
    requires rest == [] || !p(rest[0])
    ensures Runs(d + rest, p) == [d] + Runs(rest, p)
  {
    var s := d + rest;
    if rest == [] {
      assert s == d;
      SpanLengthWhole(d, p);
    } else {
      SpanLengthAt(s, p, |d|);
    }
    assert s[..|d|] == d && s[|d|..] == rest;
  }

  /** A whole non-empty run of the class is scanned as one run. */
  lemma RunsOfRun<T>(s: seq<T>, p: T -> bool)
    requires |s| > 0 && All(s, p)
    ensures Runs(s, p) == [s]
  {
    SpanLengthWhole(s, p);
    assert s[..|s|] == s;
    assert s[|s|..] == [];
  }

  lemma {:induction false} SpanLengthWhole<T>(s: seq<T>, p: T -> bool)
    requires All(s, p)
    ensures SpanLength(s, p) == |s|
    decreases |s|
  {
    if s != [] {
      assert All(s[1..], p) by {
        forall i | 0 <= i < |s[1..]| ensures p(s[1..][i]) { assert s[1..][i] == s[i + 1]; }
      }
      SpanLengthWhole(s[1..], p);
    }
  }

  /** A span that stops at an element outside the class has exactly that length. */
  lemma SpanLengthAt<T>(s: seq<T>, p: T -> bool, k: nat)
    requires k < |s| && !p(s[k])
    requires forall i :: 0 <= i < k ==> p(s[i])
    ensures SpanLength(s, p) == k
  {
  }

  /** An element outside the class separates runs: scanning distributes over it. */
  lemma {:induction false} RunsSeparated<T>(a: seq<T>, x: T, b: seq<T>, p: T -> bool)
    requires !p(x)
    ensures Runs(a + [x] + b, p) == Runs(a, p) + Runs(b, p)
    decreases |a|
  {
    var s := a + [x] + b;
    if a == [] {
      assert s == [x] + b;
      assert s[1..] == b;
    } else if !p(a[0]) {
      assert s[1..] == a[1..] + [x] + b;
      RunsSeparated(a[1..], x, b, p);
    } else {
      var k := SpanLength(a, p);
      assert s == a + ([x] + b);
      SpanLengthAppend(a, [x] + b, p);
      assert SpanLength(s, p) == k;
      assert s[k..] == a[k..] + [x] + b;
      assert s[..k] == a[..k];
      RunsSeparated(a[k..], x, b, p);
    }
  }

  lemma AppendAssoc<T>(a: seq<T>, b: seq<T>, c: seq<T>)
    ensures a + (b + c) == a + b + c
  {
  }

  /** A sequence is the part before position i, the element at i, and the part after it. */
  lemma SplitThree<T>(s: seq<T>, i: nat, j: nat)
    requires i <= j <= |s|
    ensures s == s[..i] + (s[i..j] + s[j..])
  {
    assert s[i..] == s[i..j] + s[j..];
  }

  lemma SplitAround<T>(s: seq<T>, i: nat)
    requires i < |s|
    ensures s == s[..i] + [s[i]] + s[i + 1..]
  {
  }

  /** Index of the first occurrence of x in s, or |s| when there is none. */
  function IndexOf<T(==)>(s: seq<T>, x: T): (k: nat)
    ensures k <= |s|
    ensures forall j :: 0 <= j < k ==> s[j] != x
    ensures k < |s| ==> s[k] == x
    decreases |s|
  {
    if s == [] then 0
    else if s[0] == x then 0
    else 1 + IndexOf(s[1..], x)
  }

  /** The fields of s between occurrences of sep, empty fields included. */
  function Fields<T(==)>(s: seq<T>, sep: T): (r: seq<seq<T>>)
    ensures |r| > 0
    ensures forall i :: 0 <= i < |r| ==> sep !in r[i]
    decreases |s|
  {
    var k := IndexOf(s, sep);
    if k == |s| then [s] else [s[..k]] + Fields(s[k + 1..], sep)
  }

  /**
   * The pieces of s between single elements outside p, empty pieces included:
   * splitting at every element that does not satisfy p.
   */
  function Pieces<T>(s: seq<T>, p: T -> bool): (r: seq<seq<T>>)
    ensures |r| > 0
    decreases |s|
  {
    var k := SpanLength(s, p);
    if k == |s| then [s] else [s[..k]] + Pieces(s[k + 1..], p)
  }

  /** The pieces, put back together, are the selected elements: only the separators are lost. */
  lemma {:induction false} PiecesFlatten<T>(s: seq<T>, p: T -> bool)
    ensures Flatten(Pieces(s, p)) == Filter(s, p)
    decreases |s|
  {
    var k := SpanLength(s, p);
    if k == |s| {
      SpanLengthFilter(s, p, k);
    } else {
      var rest := s[k + 1..];
      PiecesFlatten(rest, p);
      SpanLengthFilter(s, p, k);
      var ps := Pieces(rest, p);
      assert Pieces(s, p) == [s[..k]] + ps;
      assert ([s[..k]] + ps)[1..] == ps;
    }
  }

  /** Selecting from s keeps its whole first span and drops the element that ends it. */
  lemma SpanLengthFilter<T>(s: seq<T>, p: T -> bool, k: nat)
    requires k == SpanLength(s, p)
    ensures k == |s| ==> Filter(s, p) == s
    ensures k < |s| ==> Filter(s, p) == s[..k] + Filter(s[k + 1..], p)
  {
    assert All(s[..k], p);
    FilterKeepsAll(s[..k], p);
    if k < |s| {
      FilterAround(s, p, k);
      assert Filter([s[k]], p) == [] + Filter([], p);
      assert s[..k] + [] == s[..k];
    } else {
      assert s[..k] == s;
    }
  }

  /** Selection distributes over the parts before, at and after position k. */
  lemma FilterAround<T>(s: seq<T>, p: T -> bool, k: nat)
    requires k < |s|
    ensures Filter(s, p) == Filter(s[..k], p) + Filter([s[k]], p) + Filter(s[k + 1..], p)
  {
    SplitAround(s, k);
    FilterAppend(s[..k] + [s[k]], s[k + 1..], p);
    FilterAppend(s[..k], [s[k]], p);
  }

  /** Elements joined with a separator between each pair (Ruby's Array#join). */
  function Join<T>(ss: seq<seq<T>>, sep: seq<T>): seq<T> {
    if ss == [] then []
    else if |ss| == 1 then ss[0]
    else ss[0] + sep + Join(ss[1..], sep)
  }

  function Reverse<T>(s: seq<T>): (r: seq<T>)
    ensures |r| == |s|
    ensures forall i :: 0 <= i < |s| ==> r[i] == s[|s| - 1 - i]
  {
    seq(|s|, i requires 0 <= i < |s| => s[|s| - 1 - i])
  }

  lemma ReverseReverse<T>(s: seq<T>)
    ensures Reverse(Reverse(s)) == s
  {
  }

  lemma ReverseAppend<T>(a: seq<T>, b: seq<T>)
    ensures Reverse(a + b) == Reverse(b) + Reverse(a)
  {
  }
}
