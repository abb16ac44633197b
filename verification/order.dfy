/** Sequence algorithms the registry uses: std::ranges::find_if, std::erase_if,
    and the "longest name first" ordering the variable table, the special
    categories and the descriptors are kept in (std::ranges::sort by name
    length, descending). std::sort is not stable; the model fixes one of its
    allowed outcomes, the stable one, so that equal-length names keep their
    order. */
module Order {
  import opened Results

  /** find_if: the first index whose element satisfies `p`. */
  function FirstMatch<T>(s: seq<T>, p: T -> bool): (r: Option<nat>)
    ensures r.Some? ==> r.value < |s| && p(s[r.value])
    ensures r.Some? ==> forall j :: 0 <= j < r.value ==> !p(s[j])
    ensures r.None? ==> forall j :: 0 <= j < |s| ==> !p(s[j])
  {
    if |s| == 0 then None
    else if p(s[0]) then Some(0)
    else match FirstMatch(s[1..], p)
      case None => None
      case Some(k) => Some(k + 1)
  }

  /** erase_if with the complementary predicate: the kept elements, in order. */
  function Filter<T(!new)>(s: seq<T>, keep: T -> bool): (r: seq<T>)
    ensures |r| <= |s|
    ensures forall x :: x in r <==> x in s && keep(x)
  {
    if |s| == 0 then []
    else
      assert forall x :: x in s <==> x == s[0] || x in s[1..];
      (if keep(s[0]) then [s[0]] else []) + Filter(s[1..], keep)
  }

  /** Filtering distributes over concatenation. */
  lemma {:induction false} FilterAppend<T(!new)>(a: seq<T>, b: seq<T>, keep: T -> bool)
    ensures Filter(a + b, keep) == Filter(a, keep) + Filter(b, keep)
  {
    if |a| > 0 {
      assert (a + b)[1..] == a[1..] + b;
      FilterAppend(a[1..], b, keep);
    } else {
      assert a + b == b;
    }
  }

  /** The image of a sequence, element by element. */
  function MapSeq<T, U>(s: seq<T>, f: T -> U): (r: seq<U>)
    ensures |r| == |s|
    ensures forall i :: 0 <= i < |s| ==> r[i] == f(s[i])
  {
    if |s| == 0 then [] else [f(s[0])] + MapSeq(s[1..], f)
  }

  /** Keys never increase from left to right. */
  predicate SortedDesc<T>(s: seq<T>, key: T -> nat) {
    forall i, j :: 0 <= i < j < |s| ==> key(s[i]) >= key(s[j])
  }

  /** Inserts `x` after every leading element whose key is at least its own. */
  function InsertDesc<T>(s: seq<T>, x: T, key: T -> nat): (r: seq<T>)
    ensures |r| == |s| + 1
    ensures multiset(r) == multiset(s) + multiset{x}
    ensures r[0] == x || (|s| > 0 && r[0] == s[0])
  {
    if |s| == 0 then [x]
    else if key(s[0]) >= key(x) then
      assert s == [s[0]] + s[1..];
      [s[0]] + InsertDesc(s[1..], x, key)
    else [x] + s
  }

  /** Insertion keeps a sorted table sorted. */
  lemma {:induction false} InsertDescSorted<T>(s: seq<T>, x: T, key: T -> nat)
    requires SortedDesc(s, key)
    ensures SortedDesc(InsertDesc(s, x, key), key)
  {
    if |s| > 0 && key(s[0]) >= key(x) {
      InsertDescSorted(s[1..], x, key);
      var rest := InsertDesc(s[1..], x, key);
      assert key(rest[0]) <= key(s[0]);
      assert forall j :: 0 <= j < |rest| ==> key(rest[j]) <= key(rest[0]);
    }
  }

  /** An element no larger than everything in a sorted table goes to the end. */
  lemma {:induction false} InsertDescAtEnd<T>(s: seq<T>, x: T, key: T -> nat)
    requires forall i :: 0 <= i < |s| ==> key(s[i]) >= key(x)
    ensures InsertDesc(s, x, key) == s + [x]
  {
    if |s| > 0 {
      InsertDescAtEnd(s[1..], x, key);
      assert s == [s[0]] + s[1..];
    }
  }

  /** Stable insertion sort by descending key. */
  function SortDesc<T>(s: seq<T>, key: T -> nat): (r: seq<T>)
    ensures multiset(r) == multiset(s)
    ensures |r| == |s|
  {
    if |s| == 0 then []
    else
      assert s == s[..|s| - 1] + [s[|s| - 1]];
      InsertDesc(SortDesc(s[..|s| - 1], key), s[|s| - 1], key)
  }

  lemma {:induction false} SortDescSorted<T>(s: seq<T>, key: T -> nat)
    ensures SortedDesc(SortDesc(s, key), key)
  {
    if |s| > 0 {
      SortDescSorted(s[..|s| - 1], key);
      InsertDescSorted(SortDesc(s[..|s| - 1], key), s[|s| - 1], key);
    }
  }

  /** Sorting an already sorted table changes nothing. */
  lemma {:induction false} SortDescOfSorted<T>(s: seq<T>, key: T -> nat)
    requires SortedDesc(s, key)
    ensures SortDesc(s, key) == s
  {
    if |s| > 0 {
      var init := s[..|s| - 1];
      assert SortedDesc(init, key);
      SortDescOfSorted(init, key);
      InsertDescAtEnd(init, s[|s| - 1], key);
      assert init + [s[|s| - 1]] == s;
    }
  }

  /** Appending to a sorted table and sorting is one stable insertion. */
  lemma SortAfterAppend<T>(s: seq<T>, x: T, key: T -> nat)
    requires SortedDesc(s, key)
    ensures SortDesc(s + [x], key) == InsertDesc(s, x, key)
    ensures SortedDesc(SortDesc(s + [x], key), key)
  {
    assert (s + [x])[..|s|] == s;
    SortDescOfSorted(s, key);
    InsertDescSorted(s, x, key);
  }

  /** No two elements share a tag. */
  predicate DistinctBy<T, K(==)>(s: seq<T>, tag: T -> K) {
    forall i, j :: 0 <= i < j < |s| ==> tag(s[i]) != tag(s[j])
  }

  /** Insertion keeps tags distinct when the new tag is fresh. */
  lemma {:induction false} InsertDescDistinct<T, K>(s: seq<T>, x: T, key: T -> nat, tag: T -> K)
    requires DistinctBy(s, tag)
    requires forall i :: 0 <= i < |s| ==> tag(s[i]) != tag(x)
    ensures DistinctBy(InsertDesc(s, x, key), tag)
  {
    if |s| > 0 && key(s[0]) >= key(x) {
      var rest := InsertDesc(s[1..], x, key);
      InsertDescDistinct(s[1..], x, key, tag);
      forall j | 0 <= j < |rest|
        ensures tag(rest[j]) != tag(s[0])
      {
        assert rest[j] in multiset(rest);
        assert rest[j] in s[1..] || rest[j] == x;
      }
    }
  }

  /** Sorting keeps tags distinct. */
  lemma {:induction false} SortDescDistinct<T, K>(s: seq<T>, key: T -> nat, tag: T -> K)
    requires DistinctBy(s, tag)
    ensures DistinctBy(SortDesc(s, key), tag)
  {
    if |s| > 0 {
      var init := s[..|s| - 1];
      var sorted := SortDesc(init, key);
      SortDescDistinct(init, key, tag);
      forall i | 0 <= i < |sorted|
        ensures tag(sorted[i]) != tag(s[|s| - 1])
      {
        assert sorted[i] in multiset(sorted);
        assert sorted[i] in init;
      }
      InsertDescDistinct(sorted, s[|s| - 1], key, tag);
    }
  }
}
