/** `Array.prototype.sort` with a comparator built from `localeCompare` on one
    string key. The runtime's sort is stable; here it is an insertion sort,
    which is stable too. `localeCompare` is abstract: `le(a, b)` stands for
    `a.localeCompare(b) <= 0`, and the lemmas assume only that it is a total
    preorder (collation may rank distinct strings equal). */
module Sorting {
  import opened Sequences

  /** `le` is total and transitive. */
  ghost predicate TotalPreorder(le: (string, string) -> bool) {
    && (forall a, b :: le(a, b) || le(b, a))
    && (forall a, b, c :: le(a, b) && le(b, c) ==> le(a, c))
  }

  /** The comparator with its arguments swapped: `b.localeCompare(a)`. */
  function Flip(le: (string, string) -> bool): (string, string) -> bool {
    (a, b) => le(b, a)
  }

  /** Swapping the arguments of a total preorder gives a total preorder. */
  lemma FlipTotalPreorder(le: (string, string) -> bool)
    requires TotalPreorder(le)
    ensures TotalPreorder(Flip(le))
  {
    forall a, b, c | Flip(le)(a, b) && Flip(le)(b, c)
      ensures Flip(le)(a, c)
    {
      assert le(c, b) && le(b, a);
    }
  }

  /** The comparator a sort direction selects: `le`, or `le` reversed. */
  function Order(le: (string, string) -> bool, reverse: bool): (string, string) -> bool {
    if reverse then Flip(le) else le
  }

  /** Either direction of a total preorder is a total preorder. */
  lemma OrderTotalPreorder(le: (string, string) -> bool, reverse: bool)
    requires TotalPreorder(le)
    ensures TotalPreorder(Order(le, reverse))
  {
    if reverse {
      FlipTotalPreorder(le);
    }
  }

  /** `s` is ordered by `key` under `le`. */
  ghost predicate SortedBy<T>(s: seq<T>, key: T -> string, le: (string, string) -> bool) {
    forall i, j :: 0 <= i < j < |s| ==> le(key(s[i]), key(s[j]))
  }

  /** Place `x` in front of the first element it does not come after. */
  function Insert<T>(x: T, s: seq<T>, key: T -> string, le: (string, string) -> bool): seq<T>
    decreases |s|
  {
    if s == [] then [x]
    else if le(key(x), key(s[0])) then [x] + s
    else [s[0]] + Insert(x, s[1..], key, le)
  }

  /** Inserting adds exactly one copy of the element. */
  lemma {:induction false} InsertPermutes<T>(x: T, s: seq<T>, key: T -> string, le: (string, string) -> bool)
    ensures multiset(Insert(x, s, key, le)) == multiset(s) + multiset{x}
    decreases |s|
  {
    if s != [] && !le(key(x), key(s[0])) {
      InsertPermutes(x, s[1..], key, le);
      assert s == [s[0]] + s[1..];
    }
  }

  /** `[...s].sort((a, b) => key(a).localeCompare(key(b)))`, stable. */
  function StableSort<T>(s: seq<T>, key: T -> string, le: (string, string) -> bool): seq<T>
    decreases |s|
  {
    if s == [] then [] else Insert(s[0], StableSort(s[1..], key, le), key, le)
  }

  /** The sort outputs a permutation of its input. */
  lemma {:induction false} StableSortPermutes<T>(s: seq<T>, key: T -> string, le: (string, string) -> bool)
    ensures multiset(StableSort(s, key, le)) == multiset(s)
    ensures |StableSort(s, key, le)| == |s|
    decreases |s|
  {
    if s != [] {
      StableSortPermutes(s[1..], key, le);
      InsertPermutes(s[0], StableSort(s[1..], key, le), key, le);
      assert s == [s[0]] + s[1..];
    }
  }

  /** Inserting into an ordered sequence keeps it ordered. */
  lemma {:induction false} InsertSorted<T>(x: T, s: seq<T>, key: T -> string, le: (string, string) -> bool)
    requires TotalPreorder(le)
    requires SortedBy(s, key, le)
    ensures SortedBy(Insert(x, s, key, le), key, le)
    decreases |s|
  {
    if s != [] && !le(key(x), key(s[0])) {
      InsertSorted(x, s[1..], key, le);
      var r := Insert(x, s, key, le);
      var tail := Insert(x, s[1..], key, le);
      InsertPermutes(x, s[1..], key, le);
      assert r == [s[0]] + tail;
      forall j | 0 < j < |r|
        ensures le(key(s[0]), key(r[j]))
      {
        assert r[j] in multiset(tail);
        assert r[j] == x || r[j] in s[1..];
      }
    }
  }

  /** The sort orders its output. */
  lemma {:induction false} StableSortSorted<T>(s: seq<T>, key: T -> string, le: (string, string) -> bool)
    requires TotalPreorder(le)
    ensures SortedBy(StableSort(s, key, le), key, le)
    decreases |s|
  {
    if s != [] {
      StableSortSorted(s[1..], key, le);
      InsertSorted(s[0], StableSort(s[1..], key, le), key, le);
    }
  }

  /** Filtering an inserted sequence is inserting into the filtered one. */
  lemma {:induction false} FilterInsert<T(!new)>(x: T, s: seq<T>, key: T -> string, le: (string, string) -> bool, p: T -> bool)
    requires TotalPreorder(le)
    requires SortedBy(s, key, le)
    ensures Filter(Insert(x, s, key, le), p)
            == if p(x) then Insert(x, Filter(s, p), key, le) else Filter(s, p)
    decreases |s|
  {
    if s == [] {
    } else if le(key(x), key(s[0])) {
      assert Insert(x, s, key, le) == [x] + s;
      assert ([x] + s)[1..] == s;
      if p(x) {
        InsertBeforeAll(x, s, key, le, p);
      }
    } else {
      FilterInsert(x, s[1..], key, le, p);
      var tail := Insert(x, s[1..], key, le);
      var head := if p(s[0]) then [s[0]] else [];
      var rest := Filter(s[1..], p);
      assert Insert(x, s, key, le) == [s[0]] + tail;
      assert ([s[0]] + tail)[1..] == tail;
      assert Filter(Insert(x, s, key, le), p) == head + Filter(tail, p);
      assert Filter(s, p) == head + rest;
      if p(x) {
        assert Filter(tail, p) == Insert(x, rest, key, le);
        if p(s[0]) {
          assert ([s[0]] + rest)[1..] == rest;
          assert Insert(x, [s[0]] + rest, key, le) == [s[0]] + Insert(x, rest, key, le);
        } else {
          assert Filter(s, p) == rest;
          assert Filter(Insert(x, s, key, le), p) == Filter(tail, p);
        }
      } else {
        assert Filter(tail, p) == rest;
      }
    }
  }

  /** An element that ranks no later than the head of an ordered sequence
      goes in front of whatever a filter keeps of it. */
  lemma InsertBeforeAll<T(!new)>(x: T, s: seq<T>, key: T -> string, le: (string, string) -> bool, p: T -> bool)
    requires TotalPreorder(le)
    requires SortedBy(s, key, le)
    requires s != [] && le(key(x), key(s[0]))
    ensures Insert(x, Filter(s, p), key, le) == [x] + Filter(s, p)
  {
    var fs := Filter(s, p);
    if fs != [] {
      assert fs[0] in s;
      var j :| 0 <= j < |s| && s[j] == fs[0];
      if j > 0 {
        assert le(key(s[0]), key(s[j]));
      }
    }
  }

  /** Sorting then filtering equals filtering then sorting: a stable sort
      commutes with `filter`. */
  lemma {:induction false} FilterSortCommute<T(!new)>(s: seq<T>, key: T -> string, le: (string, string) -> bool, p: T -> bool)
    requires TotalPreorder(le)
    ensures Filter(StableSort(s, key, le), p) == StableSort(Filter(s, p), key, le)
    decreases |s|
  {
    if s != [] {
      FilterSortCommute(s[1..], key, le, p);
      StableSortSorted(s[1..], key, le);
      FilterInsert(s[0], StableSort(s[1..], key, le), key, le, p);
      var fs := Filter(s, p);
      if p(s[0]) {
        assert fs == [s[0]] + Filter(s[1..], p);
        assert fs[1..] == Filter(s[1..], p);
      } else {
        assert fs == Filter(s[1..], p);
      }
    }
  }

  /** Elements whose keys rank equal keep their input order (stability). */
  lemma StableSortStable<T(!new)>(s: seq<T>, key: T -> string, le: (string, string) -> bool, k: string)
    requires TotalPreorder(le)
    ensures Filter(StableSort(s, key, le), y => le(key(y), k) && le(k, key(y)))
            == Filter(s, y => le(key(y), k) && le(k, key(y)))
  {
    var p := y => le(key(y), k) && le(k, key(y));
    FilterSortCommute(s, key, le, p);
    var tied := Filter(s, p);
    assert forall i :: 0 <= i < |tied| ==> p(tied[i]) by {
      forall i | 0 <= i < |tied| ensures p(tied[i]) { assert tied[i] in tied; }
    }
    SortTiedIsIdentity(tied, key, le, k);
  }

  /** Sorting a sequence whose keys all rank equal leaves it unchanged. */
  lemma {:induction false} SortTiedIsIdentity<T>(s: seq<T>, key: T -> string, le: (string, string) -> bool, k: string)
    requires TotalPreorder(le)
    requires forall i :: 0 <= i < |s| ==> le(key(s[i]), k) && le(k, key(s[i]))
    ensures StableSort(s, key, le) == s
    decreases |s|
  {
    if s != [] {
      SortTiedIsIdentity(s[1..], key, le, k);
      if |s| > 1 {
        assert le(key(s[0]), key(s[1]));
      }
      assert [s[0]] + s[1..] == s;
    }
  }
}
