/** pandas' `drop_duplicates`: which rows survive when duplicates (equal
    keys) are dropped keeping the first or the last occurrence. Survivors
    stay in their original order. */
module Dedup {

  /** The key of every element, in order. */
  function Keys<T, K>(s: seq<T>, key: T -> K): (ks: seq<K>)
    ensures |ks| == |s|
    ensures forall i :: 0 <= i < |s| ==> ks[i] == key(s[i])
  {
    seq(|s|, i requires 0 <= i < |s| => key(s[i]))
  }

  /** The elements at the given indices, in the order of the indices. */
  function Select<T>(s: seq<T>, idx: seq<nat>): (r: seq<T>)
    requires forall k :: 0 <= k < |idx| ==> idx[k] < |s|
    ensures |r| == |idx|
    ensures forall k :: 0 <= k < |idx| ==> r[k] == s[idx[k]]
  {
    seq(|idx|, k requires 0 <= k < |idx| => s[idx[k]])
  }

  predicate Increasing(idx: seq<nat>) {
    forall p, q :: 0 <= p < q < |idx| ==> idx[p] < idx[q]
  }

  /** Survivors among the first `hi` positions under keep='first': the
      positions whose key does not occur earlier. */
  function FirstIndices<K(==)>(ks: seq<K>, hi: nat): (idx: seq<nat>)
    requires hi <= |ks|
    ensures |idx| <= hi
    ensures forall k :: 0 <= k < |idx| ==> idx[k] < hi
    decreases hi
  {
    if hi == 0 then []
    else FirstIndices(ks, hi - 1) + (if IsFirstOccurrence(ks, hi - 1) then [hi - 1] else [])
  }

  /** Survivors among the positions from `lo` on under keep='last': the
      positions whose key does not occur later. */
  function LastIndices<K(==)>(ks: seq<K>, lo: nat): (idx: seq<nat>)
    requires lo <= |ks|
    ensures |idx| <= |ks| - lo
    ensures forall k :: 0 <= k < |idx| ==> lo <= idx[k] < |ks|
    decreases |ks| - lo
  {
    if lo == |ks| then []
    else (if IsLastOccurrence(ks, lo) then [lo] else []) + LastIndices(ks, lo + 1)
  }

  /** Position `i` holds the first occurrence of its key. */
  predicate IsFirstOccurrence<K(==)>(ks: seq<K>, i: nat)
    requires i < |ks|
  {
    ks[i] !in ks[..i]
  }

  /** keep='first' keeps exactly the first occurrence of every key, in
      increasing position order. */
  lemma {:induction false} FirstIndicesSpec<K>(ks: seq<K>, hi: nat)
    requires hi <= |ks|
    ensures Increasing(FirstIndices(ks, hi))
    ensures forall i :: i in FirstIndices(ks, hi) <==> 0 <= i < hi && IsFirstOccurrence(ks, i)
  {
    if hi > 0 {
      FirstIndicesSpec(ks, hi - 1);
      var prev := FirstIndices(ks, hi - 1);
      var tail: seq<nat> := if IsFirstOccurrence(ks, hi - 1) then [hi - 1] else [];
      assert FirstIndices(ks, hi) == prev + tail;
      forall i ensures i in prev + tail <==> i in prev || i in tail {
      }
    }
  }

  /** Position `i` holds the last occurrence of its key. */
  predicate IsLastOccurrence<K(==)>(ks: seq<K>, i: nat)
    requires i < |ks|
  {
    ks[i] !in ks[i + 1..]
  }

  /** keep='last' keeps exactly the last occurrence of every key, in
      increasing position order. */
  lemma {:induction false} LastIndicesSpec<K>(ks: seq<K>, lo: nat)
    requires lo <= |ks|
    ensures Increasing(LastIndices(ks, lo))
    ensures forall i :: i in LastIndices(ks, lo) <==> lo <= i < |ks| && IsLastOccurrence(ks, i)
    decreases |ks| - lo
  {
    if lo < |ks| {
      LastIndicesSpec(ks, lo + 1);
      var rest := LastIndices(ks, lo + 1);
      if IsLastOccurrence(ks, lo) {
        assert LastIndices(ks, lo) == [lo] + rest;
        ConsIncreasing(lo, rest);
        forall i ensures i in [lo] + rest <==> lo <= i < |ks| && IsLastOccurrence(ks, i) {
          assert i in [lo] + rest <==> i == lo || i in rest;
        }
      } else {
        assert LastIndices(ks, lo) == rest;
        forall i ensures i in rest <==> lo <= i < |ks| && IsLastOccurrence(ks, i) {
          if i == lo {
            assert lo !in rest;
          }
        }
      }
    }
  }

  /** A position below every member of an increasing list can be put in
      front of it. */
  lemma ConsIncreasing(lo: nat, rest: seq<nat>)
    requires Increasing(rest)
    requires forall k :: 0 <= k < |rest| ==> lo < rest[k]
    ensures Increasing([lo] + rest)
  {
    var idx := [lo] + rest;
    forall p, q | 0 <= p < q < |idx| ensures idx[p] < idx[q] {
      assert idx[q] == rest[q - 1];
      if p > 0 {
        assert idx[p] == rest[p - 1];
      }
    }
  }

  /** The scan behind keep='first': walk forward, remembering the keys seen,
      and keep a position whose key is new. */
  method KeepFirst<T, K(==)>(a: array<T>, key: T -> K) returns (idx: seq<nat>)
    ensures idx == FirstIndices(Keys(a[..], key), a.Length)
  {
    ghost var ks := Keys(a[..], key);
    var seen: set<K> := {};
    idx := [];
    for i := 0 to a.Length
      invariant seen == set j | 0 <= j < i :: ks[j]
      invariant idx == FirstIndices(ks, i)
    {
      var k := key(a[i]);
      assert k in ks[..i] <==> k in seen by {
        if k in ks[..i] {
          var j :| 0 <= j < i && ks[..i][j] == k;
          assert ks[j] in seen;
        }
      }
      if k !in seen {
        idx := idx + [i];
        seen := seen + {k};
      }
    }
  }

  /** The scan behind keep='last': walk backward, remembering the keys seen,
      and keep a position whose key is new. */
  method KeepLast<T, K(==)>(a: array<T>, key: T -> K) returns (idx: seq<nat>)
    ensures idx == LastIndices(Keys(a[..], key), 0)
  {
    ghost var ks := Keys(a[..], key);
    var seen: set<K> := {};
    idx := [];
    var i := a.Length;
    while i > 0
      invariant 0 <= i <= a.Length
      invariant seen == set j | i <= j < a.Length :: ks[j]
      invariant idx == LastIndices(ks, i)
    {
      i := i - 1;
      var k := key(a[i]);
      assert k in ks[i + 1..] <==> k in seen by {
        if k in ks[i + 1..] {
          var j :| 0 <= j < |ks[i + 1..]| && ks[i + 1..][j] == k;
          assert ks[i + 1 + j] in seen;
        }
      }
      if k !in seen {
        idx := [i] + idx;
        seen := seen + {k};
      }
    }
  }

  /** drop_duplicates(keep='first') on whole elements. */
  function DropDuplicates<T(==)>(s: seq<T>): (r: seq<T>)
    ensures |r| <= |s|
  {
    Select(s, FirstIndices(s, |s|))
  }

  predicate Distinct<T(==)>(s: seq<T>) {
    forall p, q :: 0 <= p < q < |s| ==> s[p] != s[q]
  }

  /** The result has no two equal elements, holds exactly the elements of
      the input, and keeps each at its first occurrence, in input order. */
  lemma DropDuplicatesSpec<T>(s: seq<T>)
    ensures Distinct(DropDuplicates(s))
    ensures forall x :: x in DropDuplicates(s) <==> x in s
    ensures exists idx ::
              && Increasing(idx) && (forall k :: 0 <= k < |idx| ==> idx[k] < |s|)
              && DropDuplicates(s) == Select(s, idx)
              && forall i :: i in idx <==> 0 <= i < |s| && IsFirstOccurrence(s, i)
  {
    var idx := FirstIndices(s, |s|);
    FirstIndicesSpec(s, |s|);
    var r := DropDuplicates(s);
    forall p, q | 0 <= p < q < |r| ensures r[p] != r[q] {
      assert idx[p] in idx && idx[q] in idx;
      assert idx[p] < idx[q];
      assert s[idx[p]] in s[..idx[q]];
    }
    forall x | x in s ensures x in r {
      var i :| 0 <= i < |s| && s[i] == x;
      FirstOccurrence(s, i);
      var f :| 0 <= f <= i && s[f] == x && IsFirstOccurrence(s, f);
      assert f in idx;
      var k :| 0 <= k < |idx| && idx[k] == f;
      assert r[k] == x;
    }
  }

  /** Every element has a first occurrence. */
  lemma {:induction false} FirstOccurrence<T>(s: seq<T>, i: nat)
    requires i < |s|
    ensures exists f :: 0 <= f <= i && s[f] == s[i] && IsFirstOccurrence(s, f)
  {
    if s[i] in s[..i] {
      var j :| 0 <= j < i && s[..i][j] == s[i];
      FirstOccurrence(s, j);
    } else {
      assert IsFirstOccurrence(s, i);
    }
  }

  /** Dropping duplicates twice is the same as once. */
  lemma DropDuplicatesIdempotent<T>(s: seq<T>)
    ensures DropDuplicates(DropDuplicates(s)) == DropDuplicates(s)
  {
    DropDuplicatesSpec(s);
    DistinctUnchanged(DropDuplicates(s));
  }

  /** A sequence without duplicates is returned as it is. */
  lemma {:induction false} DistinctUnchanged<T>(s: seq<T>)
    requires Distinct(s)
    ensures DropDuplicates(s) == s
  {
    FirstIndicesSpec(s, |s|);
    var idx := FirstIndices(s, |s|);
    AllIndicesKept(s, |s|);
  }

  lemma {:induction false} AllIndicesKept<T>(s: seq<T>, hi: nat)
    requires Distinct(s) && hi <= |s|
    ensures FirstIndices(s, hi) == seq(hi, i => i)
  {
    if hi > 0 {
      AllIndicesKept(s, hi - 1);
      assert IsFirstOccurrence(s, hi - 1);
    }
  }

  /** The elements satisfying `p`, in order. */
  function Filter<T(!new)>(s: seq<T>, p: T -> bool): (r: seq<T>)
    ensures |r| <= |s|
    ensures forall x :: x in r <==> x in s && p(x)
  {
    if s == [] then []
    else (if p(s[0]) then [s[0]] else []) + Filter(s[1..], p)
  }

  /** The leading elements of a sequence are among its members. */
  lemma LeadingMembers<T>(s: seq<T>)
    ensures |s| == 0 || s[0] in s
    ensures |s| <= 1 || s[1] in s
  {
  }

  /** A sequence without repeats whose only member is `x` is `[x]`. */
  lemma DistinctSingleton<T>(s: seq<T>, x: T)
    requires Distinct(s) && forall r :: r in s <==> r == x
    ensures s == [x]
  {
    assert x in s;
    LeadingMembers(s);
  }

  /** A sequence without members is empty. */
  lemma NoMembers<T>(s: seq<T>)
    requires forall r :: r !in s
    ensures s == []
  {
    LeadingMembers(s);
  }

  /** The difference between `o` and `o + [x]`, both ways, for a new `x`. */
  lemma AppendedDifference<T>(o: seq<T>, x: T, removed: seq<T>, added: seq<T>)
    requires x !in o && Distinct(added)
    requires forall r :: r in removed <==> r in o && r !in o + [x]
    requires forall r :: r in added <==> r in o + [x] && r !in o
    ensures removed == [] && added == [x]
  {
    NoMembers(removed);
    DistinctSingleton(added, x);
  }

  /** The difference between `[x]` and `[y]`, both ways, for `x != y`. */
  lemma ReplacedDifference<T>(x: T, y: T, removed: seq<T>, added: seq<T>)
    requires x != y && Distinct(removed) && Distinct(added)
    requires forall r :: r in removed <==> r in [x] && r !in [y]
    requires forall r :: r in added <==> r in [y] && r !in [x]
    ensures removed == [x] && added == [y]
  {
    DistinctSingleton(removed, x);
    DistinctSingleton(added, y);
  }

  /** Nothing passes a test that no element meets. */
  lemma {:induction false} FilterNone<T(!new)>(s: seq<T>, p: T -> bool)
    requires forall x :: x in s ==> !p(x)
    ensures Filter(s, p) == []
  {
    if s != [] {
      assert !p(s[0]);
      FilterNone(s[1..], p);
    }
  }

  /** No key is missing from its own sequence. */
  lemma NothingAbsentFromItself<K>(a: seq<K>)
    ensures LastAbsent(a, a) == [] && FirstAbsent(a, a) == []
  {
    assert forall i :: 0 <= i < |a| ==> a[i] in a;
    FilterNone(LastIndices(a, 0), AbsentFrom(a, a));
    FilterNone(FirstIndices(a, |a|), AbsentFrom(a, a));
  }

  /** Filtering keeps an increasing sequence increasing. */
  lemma {:induction false} FilterIncreasing(s: seq<nat>, p: nat -> bool)
    requires Increasing(s)
    ensures Increasing(Filter(s, p))
  {
    if s != [] {
      FilterIncreasing(s[1..], p);
      var rest := Filter(s[1..], p);
      forall k | 0 <= k < |rest| ensures s[0] < rest[k] {
        assert rest[k] in s[1..];
      }
    }
  }

  /** An increasing sequence is determined by its members. */
  lemma {:induction false} IncreasingByMembers(x: seq<nat>, y: seq<nat>)
    requires Increasing(x) && Increasing(y)
    requires forall i :: i in x <==> i in y
    ensures x == y
  {
    assert x == [] || x[0] in x;
    assert y == [] || y[0] in y;
    if x != [] && y != [] {
      assert x[0] == y[0] by {
        assert x[0] in y && y[0] in x;
      }
      forall i ensures i in x[1..] <==> i in y[1..] {
        if i in x[1..] {
          var k :| 1 <= k < |x| && x[k] == i;
          assert x[0] < i && i in y;
          var m :| 0 <= m < |y| && y[m] == i;
          assert y[1..][m - 1] == i;
        }
        if i in y[1..] {
          var k :| 1 <= k < |y| && y[k] == i;
          assert y[0] < i && i in x;
          var m :| 0 <= m < |x| && x[m] == i;
          assert x[1..][m - 1] == i;
        }
      }
      IncreasingByMembers(x[1..], y[1..]);
    }
  }

  /** Every index moved up by `n`. */
  function Shift(idx: seq<nat>, n: nat): (r: seq<nat>)
    ensures |r| == |idx|
    ensures forall k :: 0 <= k < |idx| ==> r[k] == idx[k] + n
  {
    seq(|idx|, k requires 0 <= k < |idx| => idx[k] + n)
  }

  /** Under keep='last' on `a + b`, a position of `a` survives exactly when
      it is the last occurrence of its key in `a` and the key does not occur
      in `b`; a position of `b` survives exactly when it does within `b`. */
  lemma LastIndicesConcat<K>(a: seq<K>, b: seq<K>)
    ensures forall i :: 0 <= i < |a| ==>
              (i in LastIndices(a + b, 0) <==> IsLastOccurrence(a, i) && a[i] !in b)
    ensures forall j :: 0 <= j < |b| ==>
              (|a| + j in LastIndices(a + b, 0) <==> IsLastOccurrence(b, j))
  {
    var ab := a + b;
    LastIndicesSpec(ab, 0);
    forall i | 0 <= i < |a| ensures IsLastOccurrence(ab, i) <==> IsLastOccurrence(a, i) && a[i] !in b {
      assert ab[i + 1..] == a[i + 1..] + b;
    }
    forall j | 0 <= j < |b| ensures IsLastOccurrence(ab, |a| + j) <==> IsLastOccurrence(b, j) {
      assert ab[|a| + j + 1..] == b[j + 1..];
    }
  }

  /** Under keep='first' on `a + b`, a position of `a` survives exactly when
      it does within `a`; a position of `b` survives exactly when it is the
      first occurrence of its key in `b` and the key does not occur in `a`. */
  lemma FirstIndicesConcat<K>(a: seq<K>, b: seq<K>)
    ensures forall i :: 0 <= i < |a| ==>
              (i in FirstIndices(a + b, |a + b|) <==> IsFirstOccurrence(a, i))
    ensures forall i :: |a| <= i < |a| + |b| ==>
              (i in FirstIndices(a + b, |a + b|)
               <==> IsFirstOccurrence(b, i - |a|) && b[i - |a|] !in a)
  {
    var ab := a + b;
    FirstIndicesSpec(ab, |ab|);
    forall i | 0 <= i < |a| ensures IsFirstOccurrence(ab, i) <==> IsFirstOccurrence(a, i) {
      assert ab[..i] == a[..i];
    }
    forall i | |a| <= i < |a| + |b|
      ensures IsFirstOccurrence(ab, i) <==> IsFirstOccurrence(b, i - |a|) && b[i - |a|] !in a
    {
      assert ab[..i] == a + b[..i - |a|];
    }
  }

  /** Position `i` of `a` holds a key that `b` lacks. */
  function AbsentFrom<K(==)>(a: seq<K>, b: seq<K>): nat -> bool {
    (i: nat) => 0 <= i < |a| && a[i] !in b
  }

  /** Positions of the last occurrences within `a` of the keys `b` lacks. */
  function LastAbsent<K(==)>(a: seq<K>, b: seq<K>): (idx: seq<nat>)
    ensures forall k :: 0 <= k < |idx| ==> idx[k] < |a| && a[idx[k]] !in b
  {
    var idx := Filter(LastIndices(a, 0), AbsentFrom(a, b));
    assert forall k :: 0 <= k < |idx| ==> idx[k] in idx;
    idx
  }

  /** Positions of the first occurrences within `a` of the keys `b` lacks. */
  function FirstAbsent<K(==)>(a: seq<K>, b: seq<K>): (idx: seq<nat>)
    ensures forall k :: 0 <= k < |idx| ==> idx[k] < |a| && a[idx[k]] !in b
  {
    var idx := Filter(FirstIndices(a, |a|), AbsentFrom(a, b));
    assert forall k :: 0 <= k < |idx| ==> idx[k] in idx;
    idx
  }

  /** Every element has a last occurrence. */
  lemma {:induction false} LastOccurrence<T>(s: seq<T>, i: nat)
    requires i < |s|
    ensures exists l :: i <= l < |s| && s[l] == s[i] && IsLastOccurrence(s, l)
    decreases |s| - i
  {
    if s[i] in s[i + 1..] {
      var j :| i < j < |s| && s[j] == s[i];
      LastOccurrence(s, j);
    } else {
      assert IsLastOccurrence(s, i);
    }
  }

  /** Picking distinct positions of an increasing index sequence picks
      distinct elements when every picked position is a last occurrence. */
  lemma SelectLastsDistinct<K>(a: seq<K>, idx: seq<nat>)
    requires Increasing(idx) && forall k :: 0 <= k < |idx| ==> idx[k] < |a|
    requires forall k :: 0 <= k < |idx| ==> IsLastOccurrence(a, idx[k])
    ensures Distinct(Select(a, idx))
  {
    forall p, q | 0 <= p < q < |idx| ensures a[idx[p]] != a[idx[q]] {
      assert a[idx[q]] in a[idx[p] + 1..];
    }
  }

  /** Picking positions that are first occurrences picks distinct elements. */
  lemma SelectFirstsDistinct<K>(a: seq<K>, idx: seq<nat>)
    requires Increasing(idx) && forall k :: 0 <= k < |idx| ==> idx[k] < |a|
    requires forall k :: 0 <= k < |idx| ==> IsFirstOccurrence(a, idx[k])
    ensures Distinct(Select(a, idx))
  {
    forall p, q | 0 <= p < q < |idx| ensures a[idx[p]] != a[idx[q]] {
      assert a[idx[p]] in a[..idx[q]];
    }
  }

  /** Every element of `a` missing from `b` is chosen by keep-last. */
  lemma LastAbsentComplete<K>(a: seq<K>, b: seq<K>, x: K)
    requires x in a && x !in b
    ensures x in Select(a, LastAbsent(a, b))
  {
    var idx := LastAbsent(a, b);
    LastIndicesSpec(a, 0);
    var i :| 0 <= i < |a| && a[i] == x;
    LastOccurrence(a, i);
    var l :| i <= l < |a| && a[l] == x && IsLastOccurrence(a, l);
    assert l in idx;
    var k :| 0 <= k < |idx| && idx[k] == l;
    assert Select(a, idx)[k] == x;
  }

  /** Every element of `a` missing from `b` is chosen by keep-first. */
  lemma FirstAbsentComplete<K>(a: seq<K>, b: seq<K>, x: K)
    requires x in a && x !in b
    ensures x in Select(a, FirstAbsent(a, b))
  {
    var idx := FirstAbsent(a, b);
    FirstIndicesSpec(a, |a|);
    var i :| 0 <= i < |a| && a[i] == x;
    FirstOccurrence(a, i);
    var f :| 0 <= f <= i && a[f] == x && IsFirstOccurrence(a, f);
    assert f in idx;
    var k :| 0 <= k < |idx| && idx[k] == f;
    assert Select(a, idx)[k] == x;
  }

  /** Keep-last, then drop what `b` has: the elements of `a` missing from
      `b`, each once. */
  lemma LastAbsentSpec<K>(a: seq<K>, b: seq<K>)
    ensures Distinct(Select(a, LastAbsent(a, b)))
    ensures forall x :: x in Select(a, LastAbsent(a, b)) <==> x in a && x !in b
  {
    var idx := LastAbsent(a, b);
    LastIndicesSpec(a, 0);
    FilterIncreasing(LastIndices(a, 0), AbsentFrom(a, b));
    assert forall k :: 0 <= k < |idx| ==> idx[k] in idx;
    SelectLastsDistinct(a, idx);
    forall x | x in a && x !in b ensures x in Select(a, idx) {
      LastAbsentComplete(a, b, x);
    }
  }

  /** Keep-first, then drop what `b` has: the elements of `a` missing from
      `b`, each once. */
  lemma FirstAbsentSpec<K>(a: seq<K>, b: seq<K>)
    ensures Distinct(Select(a, FirstAbsent(a, b)))
    ensures forall x :: x in Select(a, FirstAbsent(a, b)) <==> x in a && x !in b
  {
    var idx := FirstAbsent(a, b);
    FirstIndicesSpec(a, |a|);
    FilterIncreasing(FirstIndices(a, |a|), AbsentFrom(a, b));
    assert forall k :: 0 <= k < |idx| ==> idx[k] in idx;
    SelectFirstsDistinct(a, idx);
    forall x | x in a && x !in b ensures x in Select(a, idx) {
      FirstAbsentComplete(a, b, x);
    }
  }

  /** Keep-last over `a + b`, then keeping only positions of `a`: the last
      occurrences within `a` of the keys that `b` lacks. */
  lemma LastOfFirstPart<K>(a: seq<K>, b: seq<K>, inA: nat -> bool)
    requires forall i: nat :: i < |a| + |b| ==> (inA(i) <==> i < |a|)
    ensures Filter(LastIndices(a + b, 0), inA) == LastAbsent(a, b)
  {
    var x := Filter(LastIndices(a + b, 0), inA);
    var y := Filter(LastIndices(a, 0), AbsentFrom(a, b));
    LastIndicesSpec(a + b, 0);
    LastIndicesSpec(a, 0);
    LastIndicesConcat(a, b);
    FilterIncreasing(LastIndices(a + b, 0), inA);
    FilterIncreasing(LastIndices(a, 0), AbsentFrom(a, b));
    forall i ensures i in x <==> i in y {
      assert i in x <==> 0 <= i < |a| && IsLastOccurrence(a, i) && a[i] !in b;
    }
    IncreasingByMembers(x, y);
  }

  /** Shifting keeps the order and moves every member by `n`. */
  lemma ShiftSpec(idx: seq<nat>, n: nat)
    requires Increasing(idx)
    ensures Increasing(Shift(idx, n))
    ensures forall i :: i in Shift(idx, n) <==> i >= n && i - n in idx
  {
    var y := Shift(idx, n);
    forall i ensures i in y <==> i >= n && i - n in idx {
      if i in y {
        var k :| 0 <= k < |y| && y[k] == i;
        assert idx[k] in idx;
      }
      if i >= n && i - n in idx {
        var k :| 0 <= k < |idx| && idx[k] == i - n;
        assert y[k] == i;
      }
    }
  }

  /** A position that keep-first over `a + b` keeps within `b` is one of a
      key `a` lacks, first within `b`, offset by `|a|`. */
  lemma SecondPartKept<K>(a: seq<K>, b: seq<K>, i: nat)
    requires |a| <= i && i in FirstIndices(a + b, |a + b|)
    ensures i - |a| in FirstAbsent(b, a)
  {
    FirstIndicesSpec(a + b, |a + b|);
    FirstIndicesConcat(a, b);
    FirstIndicesSpec(b, |b|);
    assert (i - |a|) in FirstIndices(b, |b|) && AbsentFrom(b, a)(i - |a|);
  }

  /** Conversely, such a position is kept. */
  lemma SecondPartChosen<K>(a: seq<K>, b: seq<K>, i: nat)
    requires |a| <= i && i - |a| in FirstAbsent(b, a)
    ensures i in FirstIndices(a + b, |a + b|)
  {
    var j := i - |a|;
    assert j in FirstIndices(b, |b|) && AbsentFrom(b, a)(j);
    assert j < |b| && b[j] !in a;
    FirstIndicesSpec(b, |b|);
    assert IsFirstOccurrence(b, j);
    FirstIndicesConcat(a, b);
    assert |a| <= i < |a| + |b|;
  }

  /** A member of a list of positions below `hi` is below `hi`. */
  lemma MemberBelow(s: seq<nat>, hi: nat, i: int)
    requires forall k :: 0 <= k < |s| ==> s[k] < hi
    requires i in s
    ensures 0 <= i < hi
  {
    var k :| 0 <= k < |s| && s[k] == i;
  }

  /** Every position keep-first over `a + b` keeps within `b` comes from
      the keys `a` lacks. */
  lemma SecondPartKeptAll<K>(a: seq<K>, b: seq<K>, inB: nat -> bool)
    requires forall i: nat :: i < |a| + |b| ==> (inB(i) <==> i >= |a|)
    ensures forall i :: i in Filter(FirstIndices(a + b, |a + b|), inB)
              ==> i >= |a| && i - |a| in FirstAbsent(b, a)
  {
    var ab := FirstIndices(a + b, |a + b|);
    forall i | i in Filter(ab, inB)
      ensures i >= |a| && i - |a| in FirstAbsent(b, a)
    {
      assert i in ab && inB(i);
      MemberBelow(ab, |a + b|, i);
      assert i >= |a|;
      SecondPartKept(a, b, i);
    }
  }

  /** Every key `a` lacks, first within `b`, has its position kept. */
  lemma SecondPartChosenAll<K>(a: seq<K>, b: seq<K>, inB: nat -> bool)
    requires forall i: nat :: i < |a| + |b| ==> (inB(i) <==> i >= |a|)
    ensures forall i: nat :: i >= |a| && i - |a| in FirstAbsent(b, a)
              ==> i in Filter(FirstIndices(a + b, |a + b|), inB)
  {
    forall i: nat | i >= |a| && i - |a| in FirstAbsent(b, a)
      ensures i in Filter(FirstIndices(a + b, |a + b|), inB)
    {
      SecondPartChosen(a, b, i);
      assert i - |a| < |b|;
    }
  }

  /** Both sides of `FirstOfSecondPart` are increasing. */
  lemma SecondPartIncreasing<K>(a: seq<K>, b: seq<K>, inB: nat -> bool)
    ensures Increasing(Filter(FirstIndices(a + b, |a + b|), inB))
    ensures Increasing(Shift(FirstAbsent(b, a), |a|))
  {
    FirstIndicesSpec(a + b, |a + b|);
    FilterIncreasing(FirstIndices(a + b, |a + b|), inB);
    FirstIndicesSpec(b, |b|);
    FilterIncreasing(FirstIndices(b, |b|), AbsentFrom(b, a));
    ShiftSpec(FirstAbsent(b, a), |a|);
  }

  /** Both sides of `FirstOfSecondPart` have the same members. */
  lemma SecondPartSameMembers<K>(a: seq<K>, b: seq<K>, inB: nat -> bool)
    requires forall i: nat :: i < |a| + |b| ==> (inB(i) <==> i >= |a|)
    ensures forall i :: i in Filter(FirstIndices(a + b, |a + b|), inB)
              <==> i in Shift(FirstAbsent(b, a), |a|)
  {
    FirstIndicesSpec(b, |b|);
    FilterIncreasing(FirstIndices(b, |b|), AbsentFrom(b, a));
    ShiftSpec(FirstAbsent(b, a), |a|);
    SecondPartKeptAll(a, b, inB);
    SecondPartChosenAll(a, b, inB);
  }

  /** Keep-first over `a + b`, then keeping only positions of `b`: the
      first occurrences within `b` of the keys that `a` lacks, shifted past
      `a`. */
  lemma FirstOfSecondPart<K>(a: seq<K>, b: seq<K>, inB: nat -> bool)
    requires forall i: nat :: i < |a| + |b| ==> (inB(i) <==> i >= |a|)
    ensures Filter(FirstIndices(a + b, |a + b|), inB)
         == Shift(FirstAbsent(b, a), |a|)
  {
    SecondPartIncreasing(a, b, inB);
    SecondPartSameMembers(a, b, inB);
    IncreasingByMembers(Filter(FirstIndices(a + b, |a + b|), inB), Shift(FirstAbsent(b, a), |a|));
  }
}
