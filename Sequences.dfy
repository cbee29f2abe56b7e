/** `Array.prototype.filter`, first-occurrence de-duplication (what
    `Array.from(new Set(xs))` yields) and the add-or-remove selection toggle
    shared by both tables. */
module Sequences {

  /** `a` is obtained from `b` by deleting elements: each element of `a` is
      matched, in order, to an element of `b`. */
  ghost predicate IsSubsequence<T>(a: seq<T>, b: seq<T>)
    decreases |b|
  {
    if a == [] then true
    else if b == [] then false
    else (a[0] == b[0] && IsSubsequence(a[1..], b[1..])) || IsSubsequence(a, b[1..])
  }

  /** `s.filter(p)`. */
  function Filter<T(!new)>(s: seq<T>, p: T -> bool): (r: seq<T>)
    ensures |r| <= |s|
    ensures forall x :: x in r <==> x in s && p(x)
    decreases |s|
  {
    if s == [] then []
    else
      assert s == [s[0]] + s[1..];
      (if p(s[0]) then [s[0]] else []) + Filter(s[1..], p)
  }

  /** `filter` keeps every copy of an element it accepts and no copy of one
      it rejects. */
  lemma {:induction false} FilterCount<T(!new)>(s: seq<T>, p: T -> bool, x: T)
    ensures multiset(Filter(s, p))[x] == if p(x) then multiset(s)[x] else 0
    decreases |s|
  {
    if s != [] {
      FilterCount(s[1..], p, x);
      assert s == [s[0]] + s[1..];
    }
  }

  /** What `filter` keeps is a subsequence of its input: it keeps the order. */
  lemma {:induction false} FilterIsSubsequence<T(!new)>(s: seq<T>, p: T -> bool)
    ensures IsSubsequence(Filter(s, p), s)
    decreases |s|
  {
    if s != [] {
      FilterIsSubsequence(s[1..], p);
      var rest := Filter(s[1..], p);
      if p(s[0]) {
        assert Filter(s, p) == [s[0]] + rest;
        assert Filter(s, p)[1..] == rest;
      } else {
        assert Filter(s, p) == rest;
        if rest != [] {
          assert rest[0] in rest;
        }
      }
    }
  }

  /** A filter that keeps everything is the identity. */
  lemma {:induction false} FilterAll<T(!new)>(s: seq<T>, p: T -> bool)
    requires forall i :: 0 <= i < |s| ==> p(s[i])
    ensures Filter(s, p) == s
    decreases |s|
  {
    if s != [] {
      FilterAll(s[1..], p);
      assert [s[0]] + s[1..] == s;
    }
  }

  /** Two predicates that agree on the elements of `s` filter it alike. */
  lemma {:induction false} FilterCongruent<T(!new)>(s: seq<T>, p: T -> bool, q: T -> bool)
    requires forall i :: 0 <= i < |s| ==> p(s[i]) == q(s[i])
    ensures Filter(s, p) == Filter(s, q)
    decreases |s|
  {
    if s != [] {
      FilterCongruent(s[1..], p, q);
    }
  }

  /** No element occurs twice. */
  predicate NoDuplicates<T(==)>(s: seq<T>) {
    forall i, j :: 0 <= i < j < |s| ==> s[i] != s[j]
  }

  /** Position of the first occurrence of `x` in `s`. */
  function IndexOf<T(==)>(s: seq<T>, x: T): (i: nat)
    requires x in s
    ensures i < |s| && s[i] == x && x !in s[..i]
    decreases |s|
  {
    if s[0] == x then 0
    else
      var j := IndexOf(s[1..], x);
      assert s[..j + 1] == [s[0]] + s[1..][..j];
      j + 1
  }

  /** `Array.from(new Set(s))`: each distinct element once, at its first
      occurrence. */
  function Dedup<T(==,!new)>(s: seq<T>): (r: seq<T>)
    ensures forall x :: x in r <==> x in s
    decreases |s|
  {
    if s == [] then []
    else
      var d := Dedup(s[..|s| - 1]);
      var x := s[|s| - 1];
      assert s == s[..|s| - 1] + [x];
      if x in d then d else d + [x]
  }

  /** `Dedup` keeps no duplicates and lists the elements in the order of
      their first occurrence in the input. */
  lemma {:induction false} DedupOrdered<T(!new)>(s: seq<T>)
    ensures NoDuplicates(Dedup(s))
    ensures forall i, j :: 0 <= i < j < |Dedup(s)| ==>
              IndexOf(s, Dedup(s)[i]) < IndexOf(s, Dedup(s)[j])
    decreases |s|
  {
    if s != [] {
      var init := s[..|s| - 1];
      var x := s[|s| - 1];
      var d := Dedup(init);
      DedupOrdered(init);
      assert s == init + [x];
      forall y | y in init
        ensures IndexOf(s, y) == IndexOf(init, y)
      {
        IndexOfPrefix(init, [x], y);
      }
      if x !in d {
        assert x !in init;
        assert IndexOf(s, x) == |init| by {
          assert s[..|init|] == init;
        }
        forall i | 0 <= i < |d|
          ensures IndexOf(s, d[i]) < IndexOf(s, x)
        {
          assert d[i] in init;
        }
      }
    }
  }

  /** The first occurrence of an element of `a` in `a + b` lies in `a`. */
  lemma IndexOfPrefix<T>(a: seq<T>, b: seq<T>, y: T)
    requires y in a
    ensures IndexOf(a + b, y) == IndexOf(a, y)
  {
    var i := IndexOf(a, y);
    var k := IndexOf(a + b, y);
    assert (a + b)[i] == y;
  }

  /** The selection toggle: an element already present is removed (every
      occurrence of it), an absent one is appended at the end. */
  function Toggle<T(==,!new)>(selected: seq<T>, x: T): (r: seq<T>)
    ensures x in r <==> x !in selected
    ensures forall y :: y != x ==> (y in r <==> y in selected)
    ensures x !in selected ==> r == selected + [x]
    ensures x in selected ==> IsSubsequence(r, selected)
                              && forall y :: multiset(r)[y] == if y == x then 0 else multiset(selected)[y]
  {
    if x in selected then
      FilterIsSubsequence(selected, y => y != x);
      assert forall y :: multiset(Filter(selected, y => y != x))[y] == if y == x then 0 else multiset(selected)[y] by {
        forall y { FilterCount(selected, y => y != x, y); }
      }
      Filter(selected, y => y != x)
    else selected + [x]
  }

  /** Toggling an absent element twice gives back the selection exactly. */
  lemma ToggleTwice<T(!new)>(selected: seq<T>, x: T)
    requires x !in selected
    ensures Toggle(Toggle(selected, x), x) == selected
  {
    var once := selected + [x];
    FilterAll(selected, y => y != x);
    assert once == selected + [x];
    assert Filter(once, y => y != x) == Filter(selected, y => y != x) by {
      FilterAppend(selected, [x], y => y != x);
    }
  }

  /** Removing a selected element is filtering with any predicate that
      rejects exactly that element. */
  lemma ToggleAsFilter<T(!new)>(selected: seq<T>, x: T, p: T -> bool)
    requires x in selected
    requires forall i :: 0 <= i < |selected| ==> p(selected[i]) == (selected[i] != x)
    ensures Toggle(selected, x) == Filter(selected, p)
  {
    FilterCongruent(selected, p, y => y != x);
  }

  /** Filtering distributes over concatenation. */
  lemma {:induction false} FilterAppend<T(!new)>(a: seq<T>, b: seq<T>, p: T -> bool)
    ensures Filter(a + b, p) == Filter(a, p) + Filter(b, p)
    decreases |a|
  {
    if a != [] {
      FilterAppend(a[1..], b, p);
      var ab := a + b;
      assert ab[0] == a[0] && ab[1..] == a[1..] + b;
      calc {
        Filter(ab, p);
        (if p(a[0]) then [a[0]] else []) + Filter(a[1..] + b, p);
        (if p(a[0]) then [a[0]] else []) + (Filter(a[1..], p) + Filter(b, p));
      }
    } else {
      assert a + b == b;
    }
  }

  /** Toggling keeps a duplicate-free selection duplicate-free. */
  lemma ToggleNoDuplicates<T(!new)>(selected: seq<T>, x: T)
    requires NoDuplicates(selected)
    ensures NoDuplicates(Toggle(selected, x))
  {
    if x in selected {
      FilterNoDuplicates(selected, y => y != x);
    }
  }

  /** Filtering a duplicate-free sequence keeps it duplicate-free. */
  lemma {:induction false} FilterNoDuplicates<T(!new)>(s: seq<T>, p: T -> bool)
    requires NoDuplicates(s)
    ensures NoDuplicates(Filter(s, p))
    decreases |s|
  {
    if s != [] {
      FilterNoDuplicates(s[1..], p);
    }
  }

  /** The first occurrence of an element absent from `a` in `a + b` is its
      first occurrence in `b`, shifted by `|a|`. */
  lemma IndexOfAfter<T>(a: seq<T>, b: seq<T>, y: T)
    requires y !in a && y in b
    ensures IndexOf(a + b, y) == |a| + IndexOf(b, y)
  {
    var k := IndexOf(b, y);
    assert (a + b)[|a| + k] == y;
    assert (a + b)[..|a| + k] == a + b[..k];
  }

  /** An element `filter` keeps sits in the output after exactly the kept
      elements that precede its first occurrence in the input. */
  lemma FilterIndexOf<T(!new)>(s: seq<T>, p: T -> bool, v: T)
    requires v in s && p(v)
    ensures v in Filter(s, p)
    ensures IndexOf(Filter(s, p), v) == |Filter(s[..IndexOf(s, v)], p)|
  {
    var i := IndexOf(s, v);
    var before, after := s[..i], s[i..];
    assert s == before + after;
    FilterAppend(before, after, p);
    assert after[0] == v;
    var kept := Filter(after, p);
    assert kept == [v] + Filter(after[1..], p);
    assert IndexOf(kept, v) == 0;
    IndexOfAfter(Filter(before, p), kept, v);
  }

  /** A longer prefix keeps at least as many elements. */
  lemma FilterPrefixMonotone<T(!new)>(s: seq<T>, p: T -> bool, i: nat, j: nat)
    requires i <= j <= |s|
    ensures |Filter(s[..i], p)| <= |Filter(s[..j], p)|
    ensures i < j && p(s[i]) ==> |Filter(s[..i], p)| < |Filter(s[..j], p)|
  {
    assert s[..j] == s[..i] + s[i..j];
    FilterAppend(s[..i], s[i..j], p);
    if i < j && p(s[i]) {
      assert s[i..j] == [s[i]] + s[i + 1..j];
      FilterAppend([s[i]], s[i + 1..j], p);
    }
  }

  /** `filter` keeps the relative order of the first occurrences of the
      elements it keeps. */
  lemma FilterPreservesOrder<T(!new)>(s: seq<T>, p: T -> bool, x: T, y: T)
    requires x in s && p(x) && y in s && p(y)
    ensures x in Filter(s, p) && y in Filter(s, p)
    ensures IndexOf(Filter(s, p), x) < IndexOf(Filter(s, p), y) <==> IndexOf(s, x) < IndexOf(s, y)
  {
    FilterIndexOf(s, p, x);
    FilterIndexOf(s, p, y);
    var ix, iy := IndexOf(s, x), IndexOf(s, y);
    if ix < iy {
      FilterPrefixMonotone(s, p, ix, iy);
    } else {
      FilterPrefixMonotone(s, p, iy, ix);
    }
  }

  /** A one-longer prefix adds the next element. */
  lemma PrefixSnoc<T>(s: seq<T>, i: nat)
    requires i < |s|
    ensures s[..i + 1] == s[..i] + [s[i]]
  {
  }
}
