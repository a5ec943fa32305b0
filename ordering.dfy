/** Python's default ordering of `str` values (lexicographic by code point),
    which `sorted(...)` uses at app.py:93, and the strictly sorted,
    duplicate-free name lists built on it. */
module Ordering {

  /** `a` and `b` agree on their first `k` characters, and at position `k`
      either `a` has ended while `b` goes on or `a` has the smaller character. */
  ghost predicate FirstDifference(a: string, b: string, k: nat)
  {
    k <= |a| && k <= |b| && a[..k] == b[..k]
    && ((k == |a| && k < |b|) || (k < |a| && k < |b| && a[k] < b[k]))
  }

  /** `a < b` on Python strings: lexicographic by code point, a proper prefix
      sorting first. */
  predicate Less(a: string, b: string): (r: bool)
    ensures r <==> exists k: nat :: FirstDifference(a, b, k)
    decreases |a|
  {
    if |a| == 0 then
      assert |b| > 0 ==> FirstDifference(a, b, 0);
      |b| > 0
    else if |b| == 0 then false
    else if a[0] != b[0] then
      FirstCharDecides(a, b);
      a[0] < b[0]
    else
      SameFirstChar(a, b);
      Less(a[1..], b[1..])
  }

  /** Strings that differ in their first character differ first there. */
  lemma FirstCharDecides(a: string, b: string)
    requires |a| > 0 && |b| > 0 && a[0] != b[0]
    ensures (exists k: nat :: FirstDifference(a, b, k)) <==> a[0] < b[0]
  {
    if a[0] < b[0] {
      assert FirstDifference(a, b, 0);
    }
    forall k: nat | FirstDifference(a, b, k) ensures a[0] < b[0] {
      if k > 0 {
        assert a[..k][0] == b[..k][0];
      }
    }
  }

  /** Strings with the same first character differ first where their tails do. */
  lemma SameFirstChar(a: string, b: string)
    requires |a| > 0 && |b| > 0 && a[0] == b[0]
    ensures (exists k: nat :: FirstDifference(a, b, k)) <==> (exists k: nat :: FirstDifference(a[1..], b[1..], k))
  {
    forall k: nat | FirstDifference(a, b, k) ensures FirstDifference(a[1..], b[1..], k - 1) {
      assert k > 0;
      assert a[1..][..k - 1] == a[..k][1..] && b[1..][..k - 1] == b[..k][1..];
    }
    forall k: nat | FirstDifference(a[1..], b[1..], k) ensures FirstDifference(a, b, k + 1) {
      assert a[..k + 1] == [a[0]] + a[1..][..k] && b[..k + 1] == [b[0]] + b[1..][..k];
    }
  }

  lemma {:induction false} LessIrreflexive(a: string)
    ensures !Less(a, a)
    decreases |a|
  {
    if |a| > 0 {
      LessIrreflexive(a[1..]);
    }
  }

  lemma {:induction false} LessTransitive(a: string, b: string, c: string)
    requires Less(a, b) && Less(b, c)
    ensures Less(a, c)
    decreases |a|
  {
    if |a| > 0 && |b| > 0 && |c| > 0 && a[0] == b[0] && b[0] == c[0] {
      LessTransitive(a[1..], b[1..], c[1..]);
    }
  }

  /** Any two different strings are ordered one way or the other. */
  lemma {:induction false} LessTotal(a: string, b: string)
    requires a != b
    ensures Less(a, b) || Less(b, a)
    decreases |a|
  {
    if |a| > 0 && |b| > 0 && a[0] == b[0] {
      assert a == [a[0]] + a[1..] && b == [b[0]] + b[1..];
      LessTotal(a[1..], b[1..]);
    }
  }

  /** Strictly increasing, hence also free of duplicates. */
  ghost predicate Sorted(s: seq<string>)
  {
    forall i, j :: 0 <= i < j < |s| ==> Less(s[i], s[j])
  }

  lemma SortedTail(s: seq<string>)
    requires Sorted(s) && s != []
    ensures Sorted(s[1..])
    ensures forall y :: y in s[1..] <==> y in s && y != s[0]
    ensures forall y :: y in s[1..] ==> Less(s[0], y)
  {
    forall y | y in s[1..] ensures y != s[0] && Less(s[0], y) {
      var j :| 0 <= j < |s[1..]| && s[1..][j] == y;
      assert Less(s[0], s[j + 1]);
      LessIrreflexive(s[0]);
    }
    assert s == [s[0]] + s[1..];
  }

  lemma SortedCons(x: string, s: seq<string>)
    requires Sorted(s)
    requires forall y :: y in s ==> Less(x, y)
    ensures Sorted([x] + s)
  {
    var t := [x] + s;
    forall i, j | 0 <= i < j < |t| ensures Less(t[i], t[j]) {
      assert t[j] == s[j - 1];
      if i > 0 {
        assert t[i] == s[i - 1];
      }
    }
  }

  /** Everything in a sorted list is above anything below its head. */
  lemma BelowHead(x: string, s: seq<string>)
    requires Sorted(s) && s != [] && Less(x, s[0])
    ensures forall y :: y in s ==> Less(x, y)
  {
    forall y | y in s ensures Less(x, y) {
      var j :| 0 <= j < |s| && s[j] == y;
      if j > 0 {
        LessTransitive(x, s[0], s[j]);
      }
    }
  }

  /** Adds `x` to a sorted list, keeping it sorted and duplicate-free. */
  function Insert(x: string, s: seq<string>): (r: seq<string>)
    requires Sorted(s)
    ensures Sorted(r)
    ensures forall y :: y in r <==> y == x || y in s
  {
    if s == [] then [x]
    else if x == s[0] then s
    else if Less(x, s[0]) then
      BelowHead(x, s);
      SortedCons(x, s);
      [x] + s
    else
      LessTotal(x, s[0]);
      SortedTail(s);
      var rest := Insert(x, s[1..]);
      SortedCons(s[0], rest);
      assert s == [s[0]] + s[1..];
      [s[0]] + rest
  }

  /** The sorted list of the distinct strings of `xs`: `sorted(set(xs))`. */
  function SortedSet(xs: seq<string>): (r: seq<string>)
    ensures Sorted(r)
    ensures forall y :: y in r <==> y in xs
  {
    if xs == [] then []
    else
      assert xs == xs[..|xs| - 1] + [xs[|xs| - 1]];
      Insert(xs[|xs| - 1], SortedSet(xs[..|xs| - 1]))
  }

  lemma HasHead(t: seq<string>)
    requires t != []
    ensures t[0] in t
  {
  }

  /** A set has exactly one strictly sorted listing, so the sorted list does
      not depend on the order in which the set was enumerated. */
  lemma {:induction false} SortedUnique(s: seq<string>, t: seq<string>)
    requires Sorted(s) && Sorted(t)
    requires forall y :: y in s <==> y in t
    ensures s == t
    decreases |s|
  {
    if s == [] {
      if t != [] {
        HasHead(t);
      }
    } else {
      assert s[0] in s;
      assert t != [];
      assert t[0] in t;
      if s[0] != t[0] {
        var i :| 0 <= i < |s| && s[i] == t[0];
        var j :| 0 <= j < |t| && t[j] == s[0];
        assert Less(s[0], s[i]) && Less(t[0], t[j]);
        LessTransitive(s[0], t[0], s[0]);
        LessIrreflexive(s[0]);
      }
      SortedTail(s);
      SortedTail(t);
      SortedUnique(s[1..], t[1..]);
      assert s == [s[0]] + s[1..] && t == [t[0]] + t[1..];
    }
  }
}
