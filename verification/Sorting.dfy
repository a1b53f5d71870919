/** Sorting a list by a numeric key, as `sort.Slice` does. Where keys are distinct there is only one
    sorted list, so nothing depends on the sort being stable. */
module Sorting {

  predicate Ascending<T(!new)>(key: T -> nat, s: seq<T>) {
    forall i, j :: 0 <= i < j < |s| ==> key(s[i]) < key(s[j])
  }

  predicate Rising<T(!new)>(key: T -> nat, s: seq<T>) {
    forall i, j :: 0 <= i < j < |s| ==> key(s[i]) <= key(s[j])
  }

  predicate DistinctKeys<T(!new), K(==)>(key: T -> K, s: seq<T>) {
    forall i, j :: 0 <= i < j < |s| ==> key(s[i]) != key(s[j])
  }

  function Members<T>(s: seq<T>): set<T> {
    set t | t in s
  }

  function Insert<T>(key: T -> nat, t: T, s: seq<T>): seq<T> {
    if s == [] || key(t) <= key(s[0]) then [t] + s else [s[0]] + Insert(key, t, s[1..])
  }

  /** The list put in ascending order of its keys. */
  function Sorted<T>(key: T -> nat, s: seq<T>): seq<T> {
    if s == [] then [] else Insert(key, s[0], Sorted(key, s[1..]))
  }

  lemma {:induction false} InsertAdds<T(!new)>(key: T -> nat, t: T, s: seq<T>)
    ensures multiset(Insert(key, t, s)) == multiset(s) + multiset{t} && |Insert(key, t, s)| == |s| + 1
  {
    if s != [] && key(t) > key(s[0]) {
      InsertAdds(key, t, s[1..]);
      assert s == [s[0]] + s[1..];
    }
  }

  lemma {:induction false} InsertRises<T(!new)>(key: T -> nat, t: T, s: seq<T>)
    requires Rising(key, s)
    ensures Rising(key, Insert(key, t, s))
  {
    if s != [] && key(t) > key(s[0]) {
      var rest := Insert(key, t, s[1..]);
      InsertRises(key, t, s[1..]);
      InsertAdds(key, t, s[1..]);
      hide Insert;
      forall i | 0 <= i < |rest| ensures key(s[0]) <= key(rest[i]) {
        assert rest[i] in multiset(rest);
      }
      RisingCons(key, s[0], rest);
    }
  }

  lemma RisingCons<T(!new)>(key: T -> nat, t: T, s: seq<T>)
    requires Rising(key, s) && forall i :: 0 <= i < |s| ==> key(t) <= key(s[i])
    ensures Rising(key, [t] + s)
  {
  }

  lemma {:induction false} SortedSorts<T(!new)>(key: T -> nat, s: seq<T>)
    ensures Rising(key, Sorted(key, s)) && multiset(Sorted(key, s)) == multiset(s) && |Sorted(key, s)| == |s|
  {
    if s != [] {
      SortedSorts(key, s[1..]);
      hide Insert, Rising;
      InsertAdds(key, s[0], Sorted(key, s[1..]));
      InsertRises(key, s[0], Sorted(key, s[1..]));
      assert s == [s[0]] + s[1..];
    }
  }

  lemma SameMembers<T>(a: seq<T>, b: seq<T>, t: T)
    requires multiset(a) == multiset(b)
    ensures t in a <==> t in b
  {
    assert t in a <==> t in multiset(a);
  }

  lemma OccursTwice<T>(s: seq<T>, k: nat, l: nat)
    requires k < l < |s| && s[k] == s[l]
    ensures multiset(s)[s[k]] >= 2
  {
    assert s == s[..k + 1] + s[k + 1..];
    assert s[k] in s[..k + 1];
    assert s[l] in s[k + 1..] by { assert s[k + 1..][l - k - 1] == s[l]; }
    assert multiset(s) == multiset(s[..k + 1]) + multiset(s[k + 1..]);
  }

  lemma {:induction false} DistinctOccursOnce<T(!new), K>(key: T -> K, s: seq<T>, t: T)
    requires DistinctKeys(key, s)
    ensures multiset(s)[t] <= 1
  {
    if s != [] {
      DistinctOccursOnce(key, s[1..], t);
      assert s == [s[0]] + s[1..];
      if t == s[0] { assert t !in s[1..]; }
    }
  }

  /** Sorting a list whose keys are distinct gives a strictly ascending list. */
  lemma SortedAscends<T(!new)>(key: T -> nat, s: seq<T>)
    requires DistinctKeys(key, s)
    ensures Ascending(key, Sorted(key, s))
  {
    hide Sorted;
    SortedSorts(key, s);
    var r := Sorted(key, s);
    forall i, j | 0 <= i < j < |r| ensures key(r[i]) < key(r[j]) {
      if key(r[i]) == key(r[j]) {
        SameMembers(r, s, r[i]); SameMembers(r, s, r[j]);
        assert r[i] in r && r[j] in r;
        var a :| 0 <= a < |s| && s[a] == r[i];
        var b :| 0 <= b < |s| && s[b] == r[j];
        assert a == b;
        OccursTwice(r, i, j);
        DistinctOccursOnce(key, s, r[i]);
      }
    }
  }

  /** Ascending lists with the same members are the same list. */
  lemma {:induction false} SameAscending<T(!new)>(key: T -> nat, a: seq<T>, b: seq<T>)
    requires Ascending(key, a) && Ascending(key, b) && |a| == |b|
    requires forall t :: t in a <==> t in b
    ensures a == b
  {
    if a != [] {
      var n := |a| - 1;
      assert a[n] in b && b[n] in a;
      assert a[n] == b[n];
      forall t | t in a[..n] ensures t in b[..n] {
        assert t in b;
        var j :| 0 <= j < |b| && b[j] == t;
        assert j < n && b[..n][j] == t;
      }
      forall t | t in b[..n] ensures t in a[..n] {
        assert t in a;
        var j :| 0 <= j < |a| && a[j] == t;
        assert j < n && a[..n][j] == t;
      }
      SameAscending(key, a[..n], b[..n]);
    }
  }

  lemma AscendingIsDistinct<T(!new)>(key: T -> nat, s: seq<T>)
    requires Ascending(key, s)
    ensures DistinctKeys(key, s)
  {
  }

  lemma {:induction false} DistinctSize<T(!new)>(key: T -> nat, s: seq<T>)
    requires DistinctKeys(key, s)
    ensures |Members(s)| == |s|
  {
    if s != [] {
      var rest := s[1..];
      DistinctSize(key, rest);
      assert s[0] !in rest;
      assert Members(s) == Members(rest) + {s[0]};
    }
  }

  lemma PrefixSize<T>(s: seq<T>, k: nat)
    requires k <= |s|
    ensures |Members(s[..k])| <= k
  {
    if k > 0 {
      PrefixSize(s, k - 1);
      assert s[..k] == s[..k - 1] + [s[k - 1]];
      assert Members(s[..k]) == Members(s[..k - 1]) + {s[k - 1]};
    }
  }

  lemma SubsetSize<T>(a: set<T>, b: set<T>)
    requires a <= b
    ensures |a| <= |b|
  {
    assert b == a + (b - a);
  }

  /** In an ascending list, elements that all come below position `k` number at most `k`. */
  lemma RankBound<T(!new)>(key: T -> nat, s: seq<T>, low: seq<T>, k: nat)
    requires Ascending(key, s) && DistinctKeys(key, low) && k < |s|
    requires forall t :: t in low ==> t in s && key(t) < key(s[k])
    ensures |low| <= k
  {
    DistinctSize(key, low);
    PrefixSize(s, k);
    forall t | t in low ensures t in s[..k] {
      var i :| 0 <= i < |s| && s[i] == t;
      assert s[..k][i] == t;
    }
    SubsetSize(Members(low), Members(s[..k]));
  }
}
