/**
 * Python's `sorted(xs)` (stable, driven by `__lt__`) and `sorted(set(xs))`,
 * for any strict ordering.
 */
module Sorting {

  import Text
  import Seqs

  /** `lt` is irreflexive and transitive, as every `__lt__` of the model is. */
  ghost predicate StrictOrder<T(!new)>(lt: (T, T) -> bool)
  {
    (forall x :: !lt(x, x)) &&
    (forall x, y, z :: lt(x, y) && lt(y, z) ==> lt(x, z))
  }

  /** No element is smaller than one before it. */
  predicate SortedBy<T>(s: seq<T>, lt: (T, T) -> bool)
  {
    forall i, j :: 0 <= i < j < |s| ==> !lt(s[j], s[i])
  }

  predicate NoDuplicates<T(==)>(s: seq<T>)
  {
    forall i, j :: 0 <= i < j < |s| ==> s[i] != s[j]
  }

  /** Put `x` after every element of `s` that is not greater than it. */
  function Insert<T>(s: seq<T>, x: T, lt: (T, T) -> bool): (r: seq<T>)
    ensures multiset(r) == multiset(s) + multiset{x}
    ensures |r| == |s| + 1
  {
    if s == [] then [x]
    else if lt(x, s[0]) then [x] + s
    else
      assert s == [s[0]] + s[1..];
      [s[0]] + Insert(s[1..], x, lt)
  }

  /** Stable insertion sort: elements are inserted in their original order. */
  function Sort<T>(s: seq<T>, lt: (T, T) -> bool): (r: seq<T>)
    ensures multiset(r) == multiset(s)
    ensures |r| == |s|
  {
    if s == [] then []
    else
      assert s == s[..|s| - 1] + [s[|s| - 1]];
      Insert(Sort(s[..|s| - 1], lt), s[|s| - 1], lt)
  }

  lemma {:induction false} InsertSorted<T(!new)>(s: seq<T>, x: T, lt: (T, T) -> bool)
    requires StrictOrder(lt)
    requires SortedBy(s, lt)
    ensures SortedBy(Insert(s, x, lt), lt)
  {
    if s != [] && !lt(x, s[0]) {
      InsertSorted(s[1..], x, lt);
      var r := Insert(s, x, lt);
      assert r == [s[0]] + Insert(s[1..], x, lt);
      forall j | 0 < j < |r|
        ensures !lt(r[j], s[0])
      {
        assert r[j] in multiset(Insert(s[1..], x, lt));
        assert r[j] in multiset(s[1..]) + multiset{x};
        if r[j] != x {
          assert r[j] in s[1..];
        }
      }
    }
  }

  /** `sorted` returns an ordered list. */
  lemma {:induction false} SortSorted<T(!new)>(s: seq<T>, lt: (T, T) -> bool)
    requires StrictOrder(lt)
    ensures SortedBy(Sort(s, lt), lt)
  {
    if s != [] {
      SortSorted(s[..|s| - 1], lt);
      InsertSorted(Sort(s[..|s| - 1], lt), s[|s| - 1], lt);
    }
  }

  /** Neither element comes before the other. */
  predicate Tied<T>(lt: (T, T) -> bool, x: T, y: T)
  {
    !lt(x, y) && !lt(y, x)
  }

  /** Ties are transitive, as they are for every ordering that compares a key. */
  ghost predicate TiesTransitive<T(!new)>(lt: (T, T) -> bool)
  {
    forall x, y, z :: Tied(lt, x, y) && Tied(lt, y, z) ==> Tied(lt, x, z)
  }

  /** `[x]` when `x` is tied with `k`, else nothing. */
  function TiedPart<T>(x: T, k: T, lt: (T, T) -> bool): seq<T>
  {
    if Tied(lt, x, k) then [x] else []
  }

  /** The elements of `s` tied with `k`, in their order in `s`. */
  function TiedWith<T>(s: seq<T>, k: T, lt: (T, T) -> bool): seq<T>
  {
    if s == [] then [] else TiedPart(s[0], k, lt) + TiedWith(s[1..], k, lt)
  }

  lemma TiedWithCons<T>(x: T, t: seq<T>, k: T, lt: (T, T) -> bool)
    ensures TiedWith([x] + t, k, lt) == TiedPart(x, k, lt) + TiedWith(t, k, lt)
  {
    var s := [x] + t;
    assert s[0] == x && s[1..] == t;
  }

  lemma {:induction false} TiedWithConcat<T>(a: seq<T>, b: seq<T>, k: T, lt: (T, T) -> bool)
    ensures TiedWith(a + b, k, lt) == TiedWith(a, k, lt) + TiedWith(b, k, lt)
  {
    if a == [] {
      assert a + b == b;
    } else {
      var h, t := a[0], a[1..];
      assert a == [h] + t;
      assert a + b == [h] + (t + b);
      TiedWithCons(h, t + b, k, lt);
      TiedWithConcat(t, b, k, lt);
      TiedWithCons(h, t, k, lt);
      Seqs.AppendAssoc(TiedPart(h, k, lt), TiedWith(t, k, lt), TiedWith(b, k, lt));
    }
  }

  lemma {:induction false} TiedWithNone<T>(s: seq<T>, k: T, lt: (T, T) -> bool)
    requires forall i :: 0 <= i < |s| ==> !Tied(lt, s[i], k)
    ensures TiedWith(s, k, lt) == []
  {
    if s != [] {
      TiedWithNone(s[1..], k, lt);
    }
  }

  /** Before one of two tied elements is before the other too. */
  lemma LtTied<T(!new)>(lt: (T, T) -> bool, x: T, y: T, z: T)
    requires StrictOrder(lt) && TiesTransitive(lt)
    requires lt(x, y) && Tied(lt, y, z)
    ensures lt(x, z)
  {
    ghost var xz, zy := Tied(lt, x, z), Tied(lt, z, y);
  }

  /** An element before `x` is not tied with what `x` is tied with. */
  lemma LtNotTied<T(!new)>(lt: (T, T) -> bool, x: T, y: T, k: T)
    requires TiesTransitive(lt)
    requires lt(x, y) && Tied(lt, x, k)
    ensures !Tied(lt, k, y) && !Tied(lt, y, k)
  {
  }

  /** A sorted list starting after `x` holds nothing tied with what `x` is tied with. */
  lemma NoneTiedAfter<T(!new)>(s: seq<T>, x: T, k: T, lt: (T, T) -> bool)
    requires StrictOrder(lt) && TiesTransitive(lt)
    requires SortedBy(s, lt) && s != [] && lt(x, s[0]) && Tied(lt, x, k)
    ensures TiedWith(s, k, lt) == []
  {
    forall i | 0 <= i < |s|
      ensures !Tied(lt, s[i], k)
    {
      if 0 < i && !lt(s[0], s[i]) {
        LtTied(lt, x, s[0], s[i]);
      }
      LtNotTied(lt, x, s[i], k);
    }
    TiedWithNone(s, k, lt);
  }

  lemma SortedTail<T>(s: seq<T>, lt: (T, T) -> bool)
    requires SortedBy(s, lt) && s != []
    ensures SortedBy(s[1..], lt)
  {
    forall i, j | 0 <= i < j < |s| - 1
      ensures !lt(s[1..][j], s[1..][i])
    {
      assert s[1..][j] == s[j + 1] && s[1..][i] == s[i + 1];
    }
  }

  /**
   * Inserting into a sorted list puts `x` after every element tied with it,
   * so the elements tied with any `k` keep their order, `x` last.
   */
  lemma {:induction false} InsertStable<T(!new)>(s: seq<T>, x: T, k: T, lt: (T, T) -> bool)
    requires StrictOrder(lt) && TiesTransitive(lt)
    requires SortedBy(s, lt)
    ensures TiedWith(Insert(s, x, lt), k, lt) == TiedWith(s, k, lt) + TiedPart(x, k, lt)
  {
    if s == [] {
      assert Insert(s, x, lt) == [x] + s;
      TiedWithCons(x, s, k, lt);
    } else if lt(x, s[0]) {
      assert Insert(s, x, lt) == [x] + s;
      TiedWithCons(x, s, k, lt);
      if Tied(lt, x, k) {
        NoneTiedAfter(s, x, k, lt);
      }
    } else {
      var h, t := s[0], s[1..];
      assert s == [h] + t;
      assert Insert(s, x, lt) == [h] + Insert(t, x, lt);
      SortedTail(s, lt);
      InsertStable(t, x, k, lt);
      TiedWithCons(h, Insert(t, x, lt), k, lt);
      TiedWithCons(h, t, k, lt);
      Seqs.AppendAssoc(TiedPart(h, k, lt), TiedWith(t, k, lt), TiedPart(x, k, lt));
    }
  }

  lemma SplitLast<T>(s: seq<T>)
    requires s != []
    ensures s == s[..|s| - 1] + [s[|s| - 1]]
  {
  }

  /**
   * `sorted` is stable: the elements tied with any `k` come out in the order
   * they went in.
   */
  lemma {:induction false} SortStable<T(!new)>(s: seq<T>, k: T, lt: (T, T) -> bool)
    requires StrictOrder(lt) && TiesTransitive(lt)
    ensures TiedWith(Sort(s, lt), k, lt) == TiedWith(s, k, lt)
  {
    if s != [] {
      var init, last := s[..|s| - 1], s[|s| - 1];
      SplitLast(s);
      TiedWithConcat(init, [last], k, lt);
      TiedWithCons(last, [], k, lt);
      assert [last] + [] == [last];
      assert Sort(s, lt) == Insert(Sort(init, lt), last, lt);
      SortStable(init, k, lt);
      SortSorted(init, lt);
      InsertStable(Sort(init, lt), last, k, lt);
    }
  }

  /** The first occurrence of every element, in order (`set(xs)` before sorting). */
  function Distinct<T(==,!new)>(s: seq<T>): (r: seq<T>)
    ensures NoDuplicates(r)
    ensures forall x :: x in r <==> x in s
  {
    if s == [] then []
    else
      var r := Distinct(s[..|s| - 1]);
      assert s == s[..|s| - 1] + [s[|s| - 1]];
      if s[|s| - 1] in r then r else r + [s[|s| - 1]]
  }

  /** A new element joins the end; a known one changes nothing. */
  lemma DistinctSnoc<T(!new)>(s: seq<T>, x: T)
    ensures Distinct(s + [x]) == if x in s then Distinct(s) else Distinct(s) + [x]
  {
    assert (s + [x])[..|s + [x]| - 1] == s;
  }

  /** `sorted(set(xs))`. */
  function SortedSet<T(==,!new)>(s: seq<T>, lt: (T, T) -> bool): seq<T>
  {
    Sort(Distinct(s), lt)
  }

  lemma MultisetNoDuplicates<T>(s: seq<T>, r: seq<T>)
    requires NoDuplicates(s) && multiset(r) == multiset(s)
    ensures NoDuplicates(r)
  {
    forall i, j | 0 <= i < j < |r|
      ensures r[i] != r[j]
    {
      if r[i] == r[j] {
        assert r == r[..i] + [r[i]] + r[i + 1..j] + [r[j]] + r[j + 1..];
        assert multiset(r)[r[i]] >= 2;
        CountAtMostOne(s, r[i]);
      }
    }
  }

  lemma {:induction false} CountAtMostOne<T>(s: seq<T>, x: T)
    requires NoDuplicates(s)
    ensures multiset(s)[x] <= 1
  {
    if s != [] {
      assert s == [s[0]] + s[1..];
      CountAtMostOne(s[1..], x);
      if s[0] == x {
        assert x !in s[1..];
      }
    }
  }

  /** `sorted(set(xs))` holds each element of `xs` exactly once, in order. */
  lemma SortedSetSpec<T(!new)>(s: seq<T>, lt: (T, T) -> bool)
    requires StrictOrder(lt)
    ensures SortedBy(SortedSet(s, lt), lt)
    ensures NoDuplicates(SortedSet(s, lt))
    ensures forall x :: x in SortedSet(s, lt) <==> x in s
  {
    var d := Distinct(s);
    SortSorted(d, lt);
    MultisetNoDuplicates(d, Sort(d, lt));
    forall x
      ensures x in Sort(d, lt) <==> x in s
    {
      assert x in Sort(d, lt) <==> x in multiset(Sort(d, lt));
      assert x in d <==> x in multiset(d);
    }
  }

  /** Python's string comparison is a strict order. */
  lemma StrLtStrictOrder()
    ensures StrictOrder(Text.StrLt)
  {
    forall x: string
      ensures !Text.StrLt(x, x)
    {
      Text.StrLtIrreflexive(x);
    }
    forall x: string, y: string, z: string | Text.StrLt(x, y) && Text.StrLt(y, z)
      ensures Text.StrLt(x, z)
    {
      Text.StrLtTransitive(x, y, z);
    }
  }
}
