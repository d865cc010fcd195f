/** Stable sorting by a total preorder, as the library sort does it, and removal from a sequence. */
module Sorting {

  ghost predicate TotalPreorder<T(!new)>(le: (T, T) -> bool) {
    && (forall a, b :: le(a, b) || le(b, a))
    && (forall a, b, c :: le(a, b) && le(b, c) ==> le(a, c))
  }

  ghost predicate Sorted<T>(le: (T, T) -> bool, s: seq<T>) {
    forall i, j | 0 <= i < j < |s| :: le(s[i], s[j])
  }

  /** `x` goes after every element it does not strictly precede. */
  function Insert<T>(le: (T, T) -> bool, s: seq<T>, x: T): seq<T> {
    if s == [] || le(s[|s| - 1], x) then s + [x]
    else Insert(le, s[..|s| - 1], x) + [s[|s| - 1]]
  }

  function Sort<T>(le: (T, T) -> bool, s: seq<T>): seq<T> {
    if s == [] then [] else Insert(le, Sort(le, s[..|s| - 1]), s[|s| - 1])
  }

  lemma {:induction false} InsertKeeps<T>(le: (T, T) -> bool, s: seq<T>, x: T)
    ensures multiset(Insert(le, s, x)) == multiset(s) + multiset{x}
    ensures |Insert(le, s, x)| == |s| + 1
  {
    if s != [] && !le(s[|s| - 1], x) {
      var n := |s| - 1;
      InsertKeeps(le, s[..n], x);
      assert s == s[..n] + [s[n]];
    }
  }

  lemma {:induction false} InsertSorts<T(!new)>(le: (T, T) -> bool, s: seq<T>, x: T)
    requires TotalPreorder(le) && Sorted(le, s)
    ensures Sorted(le, Insert(le, s, x))
  {
    if s != [] && !le(s[|s| - 1], x) {
      var n := |s| - 1;
      var r := Insert(le, s[..n], x);
      InsertSorts(le, s[..n], x);
      InsertKeeps(le, s[..n], x);
      forall i | 0 <= i < |r|
        ensures le(r[i], s[n])
      {
        assert r[i] in multiset(r);
        if r[i] != x {
          assert r[i] in s[..n];
        }
      }
    }
  }

  /** The sort orders its input and is a permutation of it. */
  lemma {:induction false} SortSorts<T(!new)>(le: (T, T) -> bool, s: seq<T>)
    requires TotalPreorder(le)
    ensures Sorted(le, Sort(le, s)) && multiset(Sort(le, s)) == multiset(s) && |Sort(le, s)| == |s|
  {
    if s != [] {
      var n := |s| - 1;
      SortSorts(le, s[..n]);
      InsertSorts(le, Sort(le, s[..n]), s[n]);
      InsertKeeps(le, Sort(le, s[..n]), s[n]);
      assert s == s[..n] + [s[n]];
    }
  }

  lemma SameMembers<T>(a: seq<T>, b: seq<T>, x: T)
    requires multiset(a) == multiset(b)
    ensures x in a <==> x in b
  {
    assert x in a <==> x in multiset(a);
    assert x in b <==> x in multiset(b);
  }

  lemma SameLength<T>(a: seq<T>, b: seq<T>)
    requires multiset(a) == multiset(b)
    ensures |a| == |b|
  {
    assert |multiset(a)| == |multiset(b)|;
  }

  function Without<T>(s: seq<T>, k: nat): (r: seq<T>)
    requires k < |s|
    ensures |r| == |s| - 1
  {
    s[..k] + s[k + 1..]
  }

  lemma WithoutKeeps<T>(s: seq<T>, k: nat)
    requires k < |s|
    ensures multiset(s) == multiset(Without(s, k)) + multiset{s[k]}
  {
    assert s == s[..k] + [s[k]] + s[k + 1..];
  }

  /** Equal permutations have equally many repetitions of a key. */
  lemma DistinctUnderPermutation<T, K>(a: seq<T>, b: seq<T>, key: T -> K)
    requires multiset(a) == multiset(b)
    requires forall i, j | 0 <= i < j < |a| :: key(a[i]) != key(a[j])
    ensures forall i, j | 0 <= i < j < |b| :: key(b[i]) != key(b[j])
  {
    forall i, j | 0 <= i < j < |b|
      ensures key(b[i]) != key(b[j])
    {
      if b[i] == b[j] {
        assert b == b[..i] + [b[i]] + b[i + 1..j] + [b[j]] + b[j + 1..];
        assert multiset(b)[b[i]] >= 2;
        NoRepeats(a, key, b[i]);
      } else {
        assert b[i] in multiset(a) && b[j] in multiset(a);
        var p :| 0 <= p < |a| && a[p] == b[i];
        var q :| 0 <= q < |a| && a[q] == b[j];
        assert p < q || q < p;
      }
    }
  }

  lemma {:induction false} NoRepeats<T, K>(a: seq<T>, key: T -> K, x: T)
    requires forall i, j | 0 <= i < j < |a| :: key(a[i]) != key(a[j])
    ensures multiset(a)[x] <= 1
  {
    if a != [] {
      var n := |a| - 1;
      NoRepeats(a[..n], key, x);
      assert a == a[..n] + [a[n]];
    }
  }

  lemma TailMembers<T>(s: seq<T>)
    requires s != []
    ensures multiset(s[1..]) == multiset(s) - multiset{s[0]} && s == [s[0]] + s[1..]
  {
    assert s == [s[0]] + s[1..];
  }

  lemma FirstsOrdered<T(!new)>(le: (T, T) -> bool, a: seq<T>, b: seq<T>)
    requires TotalPreorder(le) && Sorted(le, a) && multiset(a) == multiset(b) && a != [] && b != []
    ensures le(a[0], b[0]) && a[0] in b && b[0] in a
  {
    SameMembers(a, b, b[0]);
    SameMembers(a, b, a[0]);
    var i :| 0 <= i < |a| && a[i] == b[0];
  }

  /** A sorted sequence without ties is determined by its elements. */
  lemma {:induction false} SortedUnique<T(!new)>(le: (T, T) -> bool, a: seq<T>, b: seq<T>)
    requires TotalPreorder(le) && Sorted(le, a) && Sorted(le, b) && multiset(a) == multiset(b)
    requires forall x, y | x in a && y in a && le(x, y) && le(y, x) :: x == y
    ensures a == b
  {
    SameLength(a, b);
    if a != [] {
      FirstsOrdered(le, a, b);
      FirstsOrdered(le, b, a);
      assert a[0] == b[0];
      TailMembers(a);
      TailMembers(b);
      SortedUnique(le, a[1..], b[1..]);
    }
  }

  // ---------- selecting elements ----------

  function Where<T>(s: seq<T>, keep: T -> bool): (r: seq<T>) {
    if s == [] then []
    else Where(s[..|s| - 1], keep) + if keep(s[|s| - 1]) then [s[|s| - 1]] else []
  }

  lemma WhereAppend<T>(s: seq<T>, x: T, keep: T -> bool)
    ensures Where(s + [x], keep) == Where(s, keep) + if keep(x) then [x] else []
  {
    assert (s + [x])[..|s|] == s;
  }

  lemma {:induction false} WhereInserted<T>(le: (T, T) -> bool, s: seq<T>, x: T, keep: T -> bool)
    requires forall y | y in s && keep(y) && keep(x) :: le(y, x)
    ensures Where(Insert(le, s, x), keep) == Where(s, keep) + if keep(x) then [x] else []
  {
    hide Where;
    if s != [] && !le(s[|s| - 1], x) {
      var n := |s| - 1;
      WhereInserted(le, s[..n], x, keep);
      WhereAppend(Insert(le, s[..n], x), s[n], keep);
      WhereAppend(s[..n], s[n], keep);
      assert s == s[..n] + [s[n]];
    } else {
      WhereAppend(s, x, keep);
    }
  }

  /** The sort is stable: elements that tie keep their order. */
  lemma {:induction false} SortStable<T(!new)>(le: (T, T) -> bool, s: seq<T>, keep: T -> bool)
    requires forall x, y :: keep(x) && keep(y) ==> le(x, y)
    ensures Where(Sort(le, s), keep) == Where(s, keep)
  {
    if s != [] {
      var n := |s| - 1;
      SortStable(le, s[..n], keep);
      WhereInserted(le, Sort(le, s[..n]), s[n], keep);
    }
  }

  lemma {:induction false} WhereFront<T>(s: seq<T>, keep: T -> bool)
    requires s != []
    ensures Where(s, keep) == (if keep(s[0]) then [s[0]] else []) + Where(s[1..], keep)
  {
    var n := |s| - 1;
    if n > 0 {
      WhereFront(s[..n], keep);
      assert s[..n][1..] == s[1..][..n - 1] && s[1..][n - 1] == s[n];
    } else {
      assert s[..0] == [] && s[1..] == [];
    }
  }

  // ---------- the order of texts ----------

  /** Strings compare by their first differing character; a proper prefix comes first. */
  predicate TextLe(a: string, b: string) {
    a == [] || (b != [] && (a[0] < b[0] || (a[0] == b[0] && TextLe(a[1..], b[1..]))))
  }

  /** The first place two strings differ decides their order. */
  lemma {:induction false} FirstDifference(a: string, b: string, k: nat)
    requires k <= |a| && k < |b| && a[..k] == b[..k] && (k == |a| || a[k] < b[k])
    ensures TextLe(a, b) && !TextLe(b, a)
  {
    if k > 0 {
      assert a[0] == a[..k][0] == b[..k][0] == b[0];
      assert a[1..][..k - 1] == a[..k][1..] == b[..k][1..] == b[1..][..k - 1];
      FirstDifference(a[1..], b[1..], k - 1);
    }
  }

  lemma {:induction false} TextLeTransitive(a: string, b: string, c: string)
    requires TextLe(a, b) && TextLe(b, c)
    ensures TextLe(a, c)
  {
    if a != [] && a[0] == b[0] == c[0] {
      TextLeTransitive(a[1..], b[1..], c[1..]);
    }
  }

  lemma {:induction false} TextLeTotal(a: string, b: string)
    ensures TextLe(a, b) || TextLe(b, a)
  {
    if a != [] && b != [] && a[0] == b[0] {
      TextLeTotal(a[1..], b[1..]);
    }
  }

  const BY_TEXT := (a: string, b: string) => TextLe(a, b)

  lemma ByTextIsTotal()
    ensures TotalPreorder(BY_TEXT)
  {
    hide TextLe;
    forall a, b
      ensures BY_TEXT(a, b) || BY_TEXT(b, a)
    {
      TextLeTotal(a, b);
    }
    forall a, b, c | BY_TEXT(a, b) && BY_TEXT(b, c)
      ensures BY_TEXT(a, c)
    {
      TextLeTransitive(a, b, c);
    }
  }
}
