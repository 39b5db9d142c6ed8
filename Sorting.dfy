/**
 * A stable sort, as LINQ's OrderBy and OrderByDescending perform it: elements that the
 * ordering considers equivalent keep the order they had. `leq(a, b)` means that a may
 * stand before b; the service sorts paths and matches with it.
 */
module Sorting {

  ghost predicate TotalPreorder<T(!new)>(leq: (T, T) -> bool) {
    && (forall a, b :: leq(a, b) || leq(b, a))
    && (forall a, b, c :: leq(a, b) && leq(b, c) ==> leq(a, c))
  }

  /** Each element may stand before the next. */
  ghost predicate SortedBy<T(!new)>(s: seq<T>, leq: (T, T) -> bool) {
    forall i :: 0 < i < |s| ==> leq(s[i - 1], s[i])
  }

  /** Places x in front of the first element it may stand before. */
  function Insert<T(!new)>(x: T, s: seq<T>, leq: (T, T) -> bool): seq<T>
  {
    if s == [] || leq(x, s[0]) then [x] + s
    else [s[0]] + Insert(x, s[1..], leq)
  }

  /** Insertion sort: the first element goes in front of its equivalents in the sorted rest. */
  function Sort<T(!new)>(s: seq<T>, leq: (T, T) -> bool): seq<T>
  {
    if s == [] then [] else Insert(s[0], Sort(s[1..], leq), leq)
  }

  /** The elements of s that the ordering considers equivalent to k, in their order in s. */
  function EquivalentTo<T(!new)>(s: seq<T>, k: T, leq: (T, T) -> bool): seq<T>
  {
    if s == [] then []
    else (if leq(s[0], k) && leq(k, s[0]) then [s[0]] else []) + EquivalentTo(s[1..], k, leq)
  }

  lemma {:induction false} InsertPermutes<T(!new)>(x: T, s: seq<T>, leq: (T, T) -> bool)
    ensures multiset(Insert(x, s, leq)) == multiset(s) + multiset{x}
    ensures |Insert(x, s, leq)| == |s| + 1
  {
    if s != [] && !leq(x, s[0]) {
      InsertPermutes(x, s[1..], leq);
      assert s == [s[0]] + s[1..];
    }
  }

  lemma {:induction false} InsertSorted<T(!new)>(x: T, s: seq<T>, leq: (T, T) -> bool)
    requires TotalPreorder(leq) && SortedBy(s, leq)
    ensures SortedBy(Insert(x, s, leq), leq)
    ensures Insert(x, s, leq)[0] == x || (s != [] && Insert(x, s, leq)[0] == s[0])
  {
    if s != [] && !leq(x, s[0]) {
      var rest := s[1..];
      assert SortedBy(rest, leq) by {
        forall i | 0 < i < |rest| ensures leq(rest[i - 1], rest[i]) {
          assert rest[i - 1] == s[i] && rest[i] == s[i + 1];
        }
      }
      InsertSorted(x, rest, leq);
      InsertPermutes(x, rest, leq);
      var ins := Insert(x, rest, leq);
      assert leq(s[0], ins[0]) by {
        if ins[0] == x {
          assert leq(x, s[0]) || leq(s[0], x);
        } else {
          assert ins[0] == rest[0] == s[1];
        }
      }
      var r := [s[0]] + ins;
      forall i | 0 < i < |r| ensures leq(r[i - 1], r[i]) {
        if i > 1 { assert r[i - 1] == ins[i - 2] && r[i] == ins[i - 1]; }
      }
    }
  }

  lemma {:induction false} InsertKeepsEquivalents<T(!new)>(x: T, s: seq<T>, k: T, leq: (T, T) -> bool)
    requires TotalPreorder(leq)
    ensures EquivalentTo(Insert(x, s, leq), k, leq)
         == (if leq(x, k) && leq(k, x) then [x] else []) + EquivalentTo(s, k, leq)
  {
    if s == [] || leq(x, s[0]) {
      assert ([x] + s)[0] == x;
      assert ([x] + s)[1..] == s;
    } else {
      var s0, rest := s[0], s[1..];
      var ins := Insert(x, rest, leq);
      InsertKeepsEquivalents(x, rest, k, leq);
      var r := [s0] + ins;
      assert r[0] == s0 && r[1..] == ins;
      var ex: seq<T> := if leq(x, k) && leq(k, x) then [x] else [];
      var e0: seq<T> := if leq(s0, k) && leq(k, s0) then [s0] else [];
      assert EquivalentTo(r, k, leq) == e0 + (ex + EquivalentTo(rest, k, leq));
      assert EquivalentTo(s, k, leq) == e0 + EquivalentTo(rest, k, leq);
      // x and s[0] are not both equivalent to k, for otherwise x may stand before s[0].
      assert leq(x, k) && leq(k, s0) ==> leq(x, s0);
      assert ex == [] || e0 == [];
    }
  }

  /**
   * Sort returns a permutation of its input in which each element may stand before the
   * next, and it is stable: the elements equivalent to any k keep their input order.
   */
  lemma {:induction false} SortCorrect<T(!new)>(s: seq<T>, leq: (T, T) -> bool)
    requires TotalPreorder(leq)
    ensures SortedBy(Sort(s, leq), leq)
    ensures multiset(Sort(s, leq)) == multiset(s)
    ensures |Sort(s, leq)| == |s|
    ensures forall k :: EquivalentTo(Sort(s, leq), k, leq) == EquivalentTo(s, k, leq)
  {
    if s != [] {
      SortCorrect(s[1..], leq);
      InsertSorted(s[0], Sort(s[1..], leq), leq);
      InsertPermutes(s[0], Sort(s[1..], leq), leq);
      assert s == [s[0]] + s[1..];
      forall k ensures EquivalentTo(Sort(s, leq), k, leq) == EquivalentTo(s, k, leq) {
        InsertKeepsEquivalents(s[0], Sort(s[1..], leq), k, leq);
      }
    }
  }

  /** With a transitive ordering, sortedness of neighbours extends to every pair. */
  lemma {:induction false} SortedPairwise<T(!new)>(s: seq<T>, leq: (T, T) -> bool, i: nat, j: nat)
    requires TotalPreorder(leq) && SortedBy(s, leq)
    requires i <= j < |s|
    ensures leq(s[i], s[j])
    decreases j - i
  {
    if i < j {
      SortedPairwise(s, leq, i, j - 1);
    }
  }
}
