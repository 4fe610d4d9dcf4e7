/** Sorting by a strict order, and when the sorted form is unique. */
module Ordering {

  /** Lexicographic order on byte or code-point sequences; a proper prefix comes first. */
  predicate LexLess(a: seq<int>, b: seq<int>) {
    |b| > 0 && (|a| == 0 || a[0] < b[0] || (a[0] == b[0] && LexLess(a[1..], b[1..])))
  }

  /** `k` is where `a` and `b` part: they agree before it, and there `a` has run out or has the smaller element. */
  predicate PartsAt(a: seq<int>, b: seq<int>, k: int) {
    0 <= k <= |a| && k < |b| && a[..k] == b[..k] && (k == |a| || a[k] < b[k])
  }

  lemma {:induction false} LexLessParts(a: seq<int>, b: seq<int>)
    ensures LexLess(a, b) <==> exists k :: PartsAt(a, b, k)
  {
    if |a| == 0 || |b| == 0 {
      if LexLess(a, b) { assert PartsAt(a, b, 0); }
    } else if a[0] != b[0] {
      if LexLess(a, b) { assert PartsAt(a, b, 0); }
      if k :| PartsAt(a, b, k) { assert k > 0 ==> a[..k][0] == b[..k][0]; }
    } else {
      LexLessParts(a[1..], b[1..]);
      if k :| PartsAt(a[1..], b[1..], k) {
        assert a[..k + 1] == [a[0]] + a[1..][..k] && b[..k + 1] == [b[0]] + b[1..][..k];
        assert PartsAt(a, b, k + 1);
      }
      if k :| PartsAt(a, b, k) {
        assert k > 0 && a[1..][..k - 1] == a[..k][1..] && b[1..][..k - 1] == b[..k][1..];
        assert PartsAt(a[1..], b[1..], k - 1);
      }
    }
  }

  lemma {:induction false} LexLessTransitive(a: seq<int>, b: seq<int>, c: seq<int>)
    requires LexLess(a, b) && LexLess(b, c)
    ensures LexLess(a, c)
  {
    if |a| > 0 && a[0] == b[0] == c[0] {
      LexLessTransitive(a[1..], b[1..], c[1..]);
    }
  }

  lemma {:induction false} LexLessTrichotomy(a: seq<int>, b: seq<int>)
    ensures a == b || LexLess(a, b) || LexLess(b, a)
    ensures !(LexLess(a, b) && LexLess(b, a))
    ensures a == b ==> !LexLess(a, b)
  {
    if |a| > 0 && |b| > 0 && a[0] == b[0] {
      LexLessTrichotomy(a[1..], b[1..]);
      assert a == [a[0]] + a[1..] && b == [b[0]] + b[1..];
    }
  }

  /** A strict order whose incomparability is transitive: what a comparator handed to a sort must be. */
  ghost predicate StrictWeakOrder<T(!new)>(less: (T, T) -> bool) {
    (forall x :: !less(x, x)) &&
    (forall x, y, z {:trigger less(x, y), less(y, z)} :: less(x, y) && less(y, z) ==> less(x, z)) &&
    (forall x, y, z {:trigger less(x, z), less(x, y)} :: less(x, z) ==> less(x, y) || less(y, z))
  }

  ghost predicate Sorted<T>(less: (T, T) -> bool, s: seq<T>) {
    forall i, j :: 0 <= i < j < |s| ==> !less(s[j], s[i])
  }

  ghost predicate StrictlySorted<T>(less: (T, T) -> bool, s: seq<T>) {
    forall i, j :: 0 <= i < j < |s| ==> less(s[i], s[j])
  }

  // ----- one sorted rearrangement -----

  function Insert<T>(less: (T, T) -> bool, x: T, s: seq<T>): seq<T> {
    if |s| == 0 || !less(s[0], x) then [x] + s else [s[0]] + Insert(less, x, s[1..])
  }

  function Sort<T>(less: (T, T) -> bool, s: seq<T>): seq<T> {
    if |s| == 0 then [] else Insert(less, s[0], Sort(less, s[1..]))
  }

  lemma ConsSorted<T(!new)>(less: (T, T) -> bool, head: T, tail: seq<T>, rest: seq<T>, x: T)
    requires StrictWeakOrder(less) && Sorted(less, tail)
    requires multiset(tail) == multiset(rest) + multiset{x}
    requires less(head, x) && forall k | 0 <= k < |rest| :: !less(rest[k], head)
    ensures Sorted(less, [head] + tail)
  {
    forall k | 0 <= k < |tail| ensures !less(tail[k], head) {
      assert tail[k] in multiset(tail);
      assert tail[k] == x || tail[k] in multiset(rest);
    }
  }

  lemma {:induction false} InsertSorts<T(!new)>(less: (T, T) -> bool, x: T, s: seq<T>)
    requires StrictWeakOrder(less) && Sorted(less, s)
    ensures Sorted(less, Insert(less, x, s))
    ensures multiset(Insert(less, x, s)) == multiset(s) + multiset{x}
  {
    if |s| > 0 {
      assert s == [s[0]] + s[1..];
      if less(s[0], x) {
        InsertSorts(less, x, s[1..]);
        ConsSorted(less, s[0], Insert(less, x, s[1..]), s[1..], x);
      } else {
        assert forall k | 0 <= k < |s| :: !less(s[k], x);
      }
    }
  }

  lemma {:induction false} SortSorts<T(!new)>(less: (T, T) -> bool, s: seq<T>)
    requires StrictWeakOrder(less)
    ensures Sorted(less, Sort(less, s))
    ensures multiset(Sort(less, s)) == multiset(s)
  {
    if |s| > 0 {
      SortSorts(less, s[1..]);
      InsertSorts(less, s[0], Sort(less, s[1..]));
      assert s == [s[0]] + s[1..];
    }
  }

  /** Rust's `sort_unstable_by`: the array becomes some sorted rearrangement of itself.  Callers learn nothing about
      ties. */
  method SortUnstable<T(!new)>(less: (T, T) -> bool, a: array<T>)
    requires StrictWeakOrder(less)
    modifies a
    ensures Sorted(less, a[..]) && multiset(a[..]) == multiset(old(a[..]))
  {
    var sorted := Sort(less, a[..]);
    SortSorts(less, a[..]);
    assert |multiset(sorted)| == |multiset(a[..])|;
    Overwrite(a, sorted);
  }

  method Overwrite<T>(a: array<T>, s: seq<T>)
    requires |s| == a.Length
    modifies a
    ensures a[..] == s
  {
    for i := 0 to a.Length
      invariant a[..i] == s[..i]
    {
      a[i] := s[i];
    }
  }

  /** A clone of the list, sorted. */
  method SortedClone<T(!new)>(less: (T, T) -> bool, s: seq<T>) returns (sorted: seq<T>)
    requires StrictWeakOrder(less)
    ensures Sorted(less, sorted) && multiset(sorted) == multiset(s)
  {
    var a := new T[|s|](i requires 0 <= i < |s| => s[i]);
    assert a[..] == s;
    SortUnstable(less, a);
    sorted := a[..];
  }

  lemma LeastFirst<T(!new)>(less: (T, T) -> bool, s: seq<T>, t: seq<T>)
    requires |s| > 0 && |t| > 0 && s[0] in t && t[0] in s
    requires StrictWeakOrder(less) && StrictlySorted(less, s) && Sorted(less, t)
    ensures s[0] == t[0]
  {
    var k :| 0 <= k < |s| && s[k] == t[0];
    var j :| 0 <= j < |t| && t[j] == s[0];
  }

  lemma TailMultiset<T>(s: seq<T>)
    requires |s| > 0
    ensures multiset(s[1..]) == multiset(s) - multiset{s[0]}
  {
    assert s == [s[0]] + s[1..];
  }

  /** A strictly sorted list is the only sorted rearrangement of itself. */
  lemma {:induction false} SortedFormUnique<T(!new)>(less: (T, T) -> bool, s: seq<T>, t: seq<T>)
    requires StrictWeakOrder(less)
    requires StrictlySorted(less, s) && Sorted(less, t) && multiset(s) == multiset(t)
    ensures s == t
  {
    hide StrictWeakOrder, StrictlySorted, Sorted;
    assert |s| == |multiset(s)| == |multiset(t)| == |t|;
    if |s| > 0 {
      assert s[0] in multiset(t) && t[0] in multiset(s);
      LeastFirst(less, s, t);
      TailMultiset(s);
      TailMultiset(t);
      SortedTail(less, s, t);
      SortedFormUnique(less, s[1..], t[1..]);
      assert s == [s[0]] + s[1..] && t == [t[0]] + t[1..];
    }
  }

  lemma SortedTail<T>(less: (T, T) -> bool, s: seq<T>, t: seq<T>)
    requires |s| > 0 && |t| > 0 && StrictlySorted(less, s) && Sorted(less, t)
    ensures StrictlySorted(less, s[1..]) && Sorted(less, t[1..])
  {}

  // ----- sets as strictly sorted lists -----

  /** Rust's `Vec::dedup`: drop every element equal to its predecessor. */
  function Dedup<T(==)>(s: seq<T>): seq<T> {
    if |s| < 2 then s
    else if s[0] == s[1] then Dedup(s[1..])
    else [s[0]] + Dedup(s[1..])
  }

  /** A total order: incomparable elements are equal. */
  ghost predicate Total<T(!new)>(less: (T, T) -> bool) {
    forall x, y :: x == y || less(x, y) || less(y, x)
  }

  lemma {:induction false} DedupSorted<T(!new)>(less: (T, T) -> bool, s: seq<T>)
    requires StrictWeakOrder(less) && Total(less) && Sorted(less, s)
    ensures StrictlySorted(less, Dedup(s))
    ensures forall x :: x in Dedup(s) <==> x in s
    ensures |s| > 0 ==> |Dedup(s)| > 0 && Dedup(s)[0] == s[0]
    ensures |Dedup(s)| <= |s|
  {
    if |s| >= 2 {
      DedupSorted(less, s[1..]);
      assert s == [s[0]] + s[1..];
      var tail := Dedup(s[1..]);
      if s[0] != s[1] {
        assert less(s[0], tail[0]);
        assert forall k :: 0 < k < |tail| ==> less(tail[0], tail[k]);
        assert Dedup(s) == [s[0]] + tail;
      }
    }
  }

  lemma {:induction false} StrictlySortedUnique<T(!new)>(less: (T, T) -> bool, s: seq<T>, t: seq<T>)
    requires StrictWeakOrder(less) && StrictlySorted(less, s) && StrictlySorted(less, t)
    requires forall x :: x in s <==> x in t
    ensures s == t
  {
    if |s| > 0 || |t| > 0 {
      assert (|s| > 0 ==> s[0] in t) && (|t| > 0 ==> t[0] in s);
      var k :| 0 <= k < |s| && s[k] == t[0];
      var j :| 0 <= j < |t| && t[j] == s[0];
      assert s[0] == t[0];
      forall x ensures x in s[1..] <==> x in t[1..] {
        if x in s[1..] {
          var i :| 0 <= i < |s[1..]| && s[1..][i] == x;
          assert less(s[0], x) && x in t;
        }
        if x in t[1..] {
          var i :| 0 <= i < |t[1..]| && t[1..][i] == x;
          assert less(t[0], x) && x in s;
        }
      }
      StrictlySortedUnique(less, s[1..], t[1..]);
      assert s == [s[0]] + s[1..] && t == [t[0]] + t[1..];
    }
  }
}
