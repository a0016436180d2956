/** The comparator-driven library sort (`Array.prototype.sort`, `ORDER BY`) the services lean on,
    as a specification: stable, a permutation, and the only ordered arrangement when the
    comparator separates all elements. `TotalPreorder` is what a comparator has to be for that.
    Beside it stand the few facts about sequences, sets and multisets the other modules share:
    mapping before and after sorting, lists without repetition, and sizes of sets. */
module Sorting {

  /** `le(a, b)` says that `a` may stand before `b`. */
  ghost predicate TotalPreorder<T(!new)>(le: (T, T) -> bool) {
    && (forall a, b :: le(a, b) || le(b, a))
    && (forall a, b, c :: le(a, b) && le(b, c) ==> le(a, c))
  }

  ghost predicate SortedBy<T>(le: (T, T) -> bool, s: seq<T>) {
    forall i, j :: 0 <= i < j < |s| ==> le(s[i], s[j])
  }

  /** No two positions of `s` are tied. */
  ghost predicate TieFree<T>(le: (T, T) -> bool, s: seq<T>) {
    forall i, j :: 0 <= i < j < |s| ==> !(le(s[i], s[j]) && le(s[j], s[i]))
  }

  ghost predicate Distinct<T>(s: seq<T>) {
    forall i, j :: 0 <= i < j < |s| ==> s[i] != s[j]
  }

  function Insert<T>(le: (T, T) -> bool, x: T, s: seq<T>): seq<T> {
    if |s| == 0 || le(x, s[0]) then [x] + s else [s[0]] + Insert(le, x, s[1..])
  }

  /** Stable: an element goes before its ties that come later in the input. */
  function Sort<T>(le: (T, T) -> bool, s: seq<T>): seq<T> {
    if |s| == 0 then [] else Insert(le, s[0], Sort(le, s[1..]))
  }

  function Map<A, B>(f: map<A, B>, s: seq<A>): (r: seq<B>)
    requires forall a :: a in s ==> a in f
    ensures |r| == |s| && forall i :: 0 <= i < |s| ==> r[i] == f[s[i]]
  {
    if |s| == 0 then [] else [f[s[0]]] + Map(f, s[1..])
  }

  lemma {:induction false} InsertPermutes<T>(le: (T, T) -> bool, x: T, s: seq<T>)
    ensures multiset(Insert(le, x, s)) == multiset{x} + multiset(s)
  {
    if |s| == 0 || le(x, s[0]) {
    } else {
      InsertPermutes(le, x, s[1..]);
      assert s == [s[0]] + s[1..];
    }
  }

  lemma {:induction false} SortPermutes<T>(le: (T, T) -> bool, s: seq<T>)
    ensures multiset(Sort(le, s)) == multiset(s) && |Sort(le, s)| == |s|
  {
    if |s| > 0 {
      SortPermutes(le, s[1..]);
      InsertPermutes(le, s[0], Sort(le, s[1..]));
      assert s == [s[0]] + s[1..];
    }
    assert |multiset(Sort(le, s))| == |multiset(s)|;
  }

  lemma SortOne<T>(le: (T, T) -> bool, x: T)
    ensures Sort(le, [x]) == [x]
  {
    assert [x][1..] == [];
  }

  lemma SameElements<T>(s: seq<T>, t: seq<T>)
    requires multiset(s) == multiset(t)
    ensures |s| == |t|
    ensures forall x :: x in s <==> x in t
  {
    assert |multiset(s)| == |multiset(t)|;
    forall x ensures x in s <==> x in t {
      assert x in s <==> x in multiset(s);
      assert x in t <==> x in multiset(t);
    }
  }

  lemma {:induction false} TwoPositions<T>(s: seq<T>, x: T) returns (i: nat, j: nat)
    requires multiset(s)[x] >= 2
    ensures i < j < |s| && s[i] == s[j] == x
  {
    assert s == [s[0]] + s[1..];
    if s[0] == x {
      assert x in multiset(s[1..]);
      var k :| 0 <= k < |s[1..]| && s[1..][k] == x;
      return 0, k + 1;
    }
    i, j := TwoPositions(s[1..], x);
    i, j := i + 1, j + 1;
  }

  ghost predicate Pairwise<T>(r: (T, T) -> bool, s: seq<T>) {
    forall i, j :: 0 <= i < j < |s| ==> r(s[i], s[j]) && r(s[j], s[i])
  }

  /** What holds between any two positions survives rearranging. */
  lemma PairwisePermutes<T>(r: (T, T) -> bool, s: seq<T>, t: seq<T>)
    requires Pairwise(r, s) && multiset(s) == multiset(t)
    ensures Pairwise(r, t)
  {
    SameElements(s, t);
    forall i, j | 0 <= i < j < |t| ensures r(t[i], t[j]) && r(t[j], t[i]) {
      if t[i] == t[j] {
        assert t == t[..j] + [t[j]] + t[j + 1..];
        assert t[..j][i] in multiset(t[..j]);
        var p, q := TwoPositions(s, t[i]);
      } else {
        assert t[i] in s && t[j] in s;
      }
    }
  }

  lemma DistinctPermutes<T>(s: seq<T>, t: seq<T>)
    requires Distinct(s) && multiset(s) == multiset(t)
    ensures Distinct(t)
  {
    var r := (a: T, b: T) => a != b;
    PairwisePermutes(r, s, t);
    assert forall i, j :: 0 <= i < j < |t| ==> r(t[i], t[j]);
  }

  lemma {:induction false} InsertSorts<T(!new)>(le: (T, T) -> bool, x: T, s: seq<T>)
    requires TotalPreorder(le) && SortedBy(le, s)
    ensures SortedBy(le, Insert(le, x, s))
  {
    if |s| == 0 || le(x, s[0]) {
    } else {
      InsertSorts(le, x, s[1..]);
      var r := Insert(le, x, s[1..]);
      InsertPermutes(le, x, s[1..]);
      SameElements(r, [x] + s[1..]);
      forall j | 0 <= j < |r| ensures le(s[0], r[j]) {
        assert r[j] in [x] + s[1..];
      }
    }
  }

  lemma {:induction false} SortSorts<T(!new)>(le: (T, T) -> bool, s: seq<T>)
    requires TotalPreorder(le)
    ensures SortedBy(le, Sort(le, s))
  {
    if |s| > 0 {
      SortSorts(le, s[1..]);
      InsertSorts(le, s[0], Sort(le, s[1..]));
    }
  }

  lemma TailMultiset<T>(s: seq<T>)
    requires |s| > 0
    ensures multiset(s[1..]) == multiset(s) - multiset{s[0]}
  {
    assert s == [s[0]] + s[1..];
  }

  lemma SortedHeadsAgree<T>(le: (T, T) -> bool, s: seq<T>, t: seq<T>)
    requires SortedBy(le, s) && SortedBy(le, t) && TieFree(le, s)
    requires |s| > 0 && |t| > 0 && s[0] in t && t[0] in s
    ensures s[0] == t[0]
  {
    var i :| 0 <= i < |s| && s[i] == t[0];
    var j :| 0 <= j < |t| && t[j] == s[0];
  }

  /** Two ordered arrangements of the same elements agree when nothing is tied. */
  lemma {:induction false} SortedUnique<T>(le: (T, T) -> bool, s: seq<T>, t: seq<T>)
    requires SortedBy(le, s) && SortedBy(le, t) && TieFree(le, s)
    requires multiset(s) == multiset(t)
    ensures s == t
  {
    SameElements(s, t);
    if |s| > 0 {
      SortedHeadsAgree(le, s, t);
      TailMultiset(s);
      TailMultiset(t);
      SortedUnique(le, s[1..], t[1..]);
      assert s == [s[0]] + s[1..] && t == [t[0]] + t[1..];
    }
  }

  /** A map that carries one comparator into the other carries one sort into the other. */
  lemma {:induction false} InsertMaps<A, B>(leA: (A, A) -> bool, leB: (B, B) -> bool, f: map<A, B>, x: A, s: seq<A>)
    requires x in f && forall a :: a in s ==> a in f
    requires forall a, b :: a in f && b in f ==> leA(a, b) == leB(f[a], f[b])
    ensures forall a :: a in Insert(leA, x, s) ==> a in f
    ensures Map(f, Insert(leA, x, s)) == Insert(leB, f[x], Map(f, s))
  {
    InsertPermutes(leA, x, s);
    SameElements(Insert(leA, x, s), [x] + s);
    if |s| == 0 || leA(x, s[0]) {
      assert Map(f, [x] + s) == [f[x]] + Map(f, s);
    } else {
      InsertMaps(leA, leB, f, x, s[1..]);
      assert Map(f, s)[1..] == Map(f, s[1..]);
    }
  }

  lemma {:induction false} SortMaps<A, B>(leA: (A, A) -> bool, leB: (B, B) -> bool, f: map<A, B>, s: seq<A>)
    requires forall a :: a in s ==> a in f
    requires forall a, b :: a in f && b in f ==> leA(a, b) == leB(f[a], f[b])
    ensures forall a :: a in Sort(leA, s) ==> a in f
    ensures Map(f, Sort(leA, s)) == Sort(leB, Map(f, s))
  {
    if |s| > 0 {
      SortMaps(leA, leB, f, s[1..]);
      InsertMaps(leA, leB, f, s[0], Sort(leA, s[1..]));
      assert Map(f, s)[1..] == Map(f, s[1..]);
    }
  }

  /** Tie-free arrangements with the same members are rearrangements of each other. */
  lemma SameMembers<T(!new)>(le: (T, T) -> bool, s: seq<T>, t: seq<T>)
    requires TotalPreorder(le) && TieFree(le, s) && TieFree(le, t)
    requires forall x :: x in s <==> x in t
    ensures multiset(s) == multiset(t)
  {
    forall x: T ensures multiset(s)[x] == multiset(t)[x] {
      assert x in s <==> x in multiset(s);
      assert x in t <==> x in multiset(t);
      if multiset(s)[x] >= 2 {
        var i, j := TwoPositions(s, x);
      }
      if multiset(t)[x] >= 2 {
        var i, j := TwoPositions(t, x);
      }
    }
  }

  lemma MembersOfTail<T>(s: seq<T>)
    requires |s| > 0
    ensures (set x | x in s) == (set x | x in s[1..]) + {s[0]}
  {
    assert s == [s[0]] + s[1..];
  }

  lemma DistinctTail<T>(s: seq<T>)
    requires |s| > 0
    ensures Distinct(s) <==> Distinct(s[1..]) && s[0] !in s[1..]
  {
    assert forall i :: 0 <= i < |s[1..]| ==> s[1..][i] == s[i + 1];
    if s[0] in s[1..] {
      var i :| 0 <= i < |s[1..]| && s[1..][i] == s[0];
      assert s[i + 1] == s[0];
    } else if Distinct(s[1..]) {
      forall i, j | 0 <= i < j < |s| ensures s[i] != s[j] {
        assert s[j] == s[1..][j - 1] && (i > 0 ==> s[i] == s[1..][i - 1]);
      }
    }
  }

  /** A sequence has as many members as places exactly when nothing repeats. */
  lemma {:induction false} MemberCount<T>(s: seq<T>)
    ensures |set x | x in s| <= |s|
    ensures |set x | x in s| == |s| <==> Distinct(s)
  {
    if |s| > 0 {
      MemberCount(s[1..]);
      MembersOfTail(s);
      DistinctTail(s);
    }
  }

  lemma Associates<T>(a: seq<T>, b: seq<T>, c: seq<T>)
    ensures a + (b + c) == a + b + c
  {
  }

  lemma SameSize<T>(a: set<T>, b: set<T>)
    requires a <= b && |a| == |b|
    ensures a == b
  {
    assert b == a + (b - a);
  }

  lemma SubsetSize<T>(a: set<T>, b: set<T>)
    requires a <= b
    ensures |a| <= |b|
  {
    assert b == a + (b - a);
  }
}
