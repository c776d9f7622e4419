/** Byte-wise order on strings, and sorting keyed entries with it, as the canonicaliser's sorts do. */
module Ordering {

  predicate Leq(a: string, b: string)
  {
    a == [] || (b != [] && (a[0] < b[0] || (a[0] == b[0] && Leq(a[1..], b[1..]))))
  }

  lemma {:induction false} LeqTotal(a: string, b: string)
    ensures Leq(a, a) && (Leq(a, b) || Leq(b, a))
  {
    if a != [] {
      LeqTotal(a[1..], if b == [] then [] else b[1..]);
    }
  }

  lemma {:induction false} LeqAntisymmetric(a: string, b: string)
    requires Leq(a, b) && Leq(b, a)
    ensures a == b
  {
    if a != [] {
      LeqAntisymmetric(a[1..], b[1..]);
      assert a == [a[0]] + a[1..] && b == [b[0]] + b[1..];
    }
  }

  lemma {:induction false} LeqTransitive(a: string, b: string, c: string)
    requires Leq(a, b) && Leq(b, c)
    ensures Leq(a, c)
  {
    if a != [] && a[0] == b[0] == c[0] {
      LeqTransitive(a[1..], b[1..], c[1..]);
    }
  }

  datatype Entry = Entry(key: string, value: string)

  /** Puts an entry before the first that may follow it. */
  function Insert(x: Entry, sorted: seq<Entry>): (r: seq<Entry>)
    ensures multiset(r) == multiset{x} + multiset(sorted)
  {
    if sorted == [] then [x]
    else if Leq(x.key, sorted[0].key) then [x] + sorted
    else
      assert sorted == [sorted[0]] + sorted[1..];
      [sorted[0]] + Insert(x, sorted[1..])
  }

  /** Entries in key order; equal keys keep their order. */
  function Sorted(entries: seq<Entry>): (r: seq<Entry>)
    ensures multiset(r) == multiset(entries)
  {
    if entries == [] then []
    else
      assert entries == [entries[0]] + entries[1..];
      Insert(entries[0], Sorted(entries[1..]))
  }

  ghost predicate IsSorted(s: seq<Entry>)
  {
    forall i, j :: 0 <= i < j < |s| ==> Leq(s[i].key, s[j].key)
  }

  ghost predicate DistinctKeys(s: seq<Entry>)
  {
    forall i, j :: 0 <= i < j < |s| ==> s[i].key != s[j].key
  }

  lemma {:induction false} InsertSorted(x: Entry, s: seq<Entry>)
    requires IsSorted(s)
    ensures IsSorted(Insert(x, s))
  {
    if s != [] {
      LeqTotal(x.key, s[0].key);
      if Leq(x.key, s[0].key) {
        forall y | y in s
          ensures Leq(x.key, y.key)
        {
          if y != s[0] {
            LeqTransitive(x.key, s[0].key, y.key);
          }
        }
      } else {
        InsertSorted(x, s[1..]);
        var rest := Insert(x, s[1..]);
        forall y | y in rest
          ensures Leq(s[0].key, y.key)
        {
          assert y in multiset(rest);
          assert y == x || y in s[1..];
        }
      }
    }
  }

  lemma {:induction false} SortedIsSorted(s: seq<Entry>)
    ensures IsSorted(Sorted(s)) && |Sorted(s)| == |s|
  {
    assert |multiset(Sorted(s))| == |multiset(s)|;
    if s != [] {
      SortedIsSorted(s[1..]);
      InsertSorted(s[0], Sorted(s[1..]));
    }
  }

  lemma SortedMembers(s: seq<Entry>, x: Entry)
    ensures x in Sorted(s) <==> x in s
  {
    assert x in multiset(Sorted(s)) <==> x in multiset(s);
  }

  lemma DistinctCount(s: seq<Entry>, i: int, j: int)
    requires 0 <= i < j < |s| && s[i] == s[j]
    ensures multiset(s)[s[i]] >= 2
  {
    var x := s[i];
    assert s == s[..j] + [s[j]] + s[j + 1..];
    assert x in s[..j] by {
      assert s[..j][i] == x;
    }
    assert multiset(s) == multiset(s[..j]) + multiset{x} + multiset(s[j + 1..]);
    assert x in multiset(s[..j]);
  }

  lemma {:induction false} DistinctOnce(s: seq<Entry>, x: Entry)
    requires DistinctKeys(s)
    ensures multiset(s)[x] <= 1
  {
    if s != [] {
      assert s == [s[0]] + s[1..];
      DistinctOnce(s[1..], x);
      if s[0] == x {
        assert x !in s[1..];
        assert x !in multiset(s[1..]);
      }
    }
  }

  lemma SortedDistinct(s: seq<Entry>)
    requires DistinctKeys(s)
    ensures DistinctKeys(Sorted(s))
  {
    var r := Sorted(s);
    forall i, j | 0 <= i < j < |r|
      ensures r[i].key != r[j].key
    {
      SortedMembers(s, r[i]);
      SortedMembers(s, r[j]);
      if r[i].key == r[j].key {
        assert r[i] == r[j];
        DistinctCount(r, i, j);
        DistinctOnce(s, r[i]);
      }
    }
  }

  lemma HeadIsMember(t: seq<Entry>)
    ensures t != [] ==> t[0] in t
  {
  }

  /** Two sorted lists with distinct keys and the same entries are the same list. */
  lemma {:induction false} SortedUnique(s: seq<Entry>, t: seq<Entry>)
    requires IsSorted(s) && IsSorted(t) && DistinctKeys(s) && DistinctKeys(t)
    requires forall x :: x in s <==> x in t
    ensures s == t
  {
    if s == [] {
      HeadIsMember(t);
    } else {
      assert s[0] in s && t != [] && t[0] in t;
      LeqTotal(s[0].key, s[0].key);
      LeqTotal(t[0].key, t[0].key);
      assert Leq(s[0].key, t[0].key) && Leq(t[0].key, s[0].key);
      LeqAntisymmetric(s[0].key, t[0].key);
      forall x
        ensures x in s[1..] <==> x in t[1..]
      {
        assert x in s[1..] ==> x in s && x != s[0];
        assert x in t[1..] ==> x in t && x != t[0];
      }
      SortedUnique(s[1..], t[1..]);
      assert s == [s[0]] + s[1..] && t == [t[0]] + t[1..];
    }
  }

  /** Sorting forgets the order of entries with distinct keys, and nothing else. */
  lemma SortedEqualExactlyWhen(s: seq<Entry>, t: seq<Entry>)
    requires DistinctKeys(s) && DistinctKeys(t)
    ensures Sorted(s) == Sorted(t) <==> forall x :: x in s <==> x in t
  {
    SortedIsSorted(s);
    SortedIsSorted(t);
    SortedDistinct(s);
    SortedDistinct(t);
    forall x
      ensures x in Sorted(s) <==> x in s
      ensures x in Sorted(t) <==> x in t
    {
      SortedMembers(s, x);
      SortedMembers(t, x);
    }
    if forall x :: x in s <==> x in t {
      SortedUnique(Sorted(s), Sorted(t));
    }
  }

  // ----- Sets of strings in order

  ghost predicate IsLeast(x: string, s: set<string>) { x in s && forall y :: y in s ==> Leq(x, y) }

  lemma {:induction false} LeastExists(s: set<string>) returns (least: string)
    requires s != {}
    ensures IsLeast(least, s)
    decreases |s|
  {
    var x :| x in s;
    LeqTotal(x, x);
    if s == {x} {
      return x;
    }
    var rest := s - {x};
    assert rest != {};
    least := LeastExists(rest);
    LeqTotal(x, least);
    if Leq(x, least) {
      forall y | y in s
        ensures Leq(x, y)
      {
        if y != x {
          LeqTransitive(x, least, y);
        }
      }
      return x;
    }
  }

  lemma LeastUnique(x: string, y: string, s: set<string>)
    requires IsLeast(x, s) && IsLeast(y, s)
    ensures x == y
  {
    LeqAntisymmetric(x, y);
  }

  /** The members of a set in order, as a BTreeSet iterates over them. */
  ghost function InOrder(s: set<string>): (r: seq<string>)
    ensures forall x :: x in r <==> x in s
    ensures forall i, j :: 0 <= i < j < |r| ==> r[i] != r[j]
    decreases |s|
  {
    if s == {} then [] else
      assert exists x :: IsLeast(x, s) by {
        var least := LeastExists(s);
      }
      var least :| IsLeast(least, s);
      [least] + InOrder(s - {least})
  }

  // ----- Decimal numbers

  function Digit(d: nat): char
    requires d < 10
  {
    ['0', '1', '2', '3', '4', '5', '6', '7', '8', '9'][d]
  }

  function Decimal(n: nat): (s: string)
    ensures |s| >= 1 && (forall c :: c in s ==> '0' <= c <= '9')
    ensures n >= 10 ==> |s| >= 2
  {
    if n < 10 then [Digit(n)] else Decimal(n / 10) + [Digit(n % 10)]
  }

  lemma {:induction false} DecimalInjective(m: nat, n: nat)
    requires Decimal(m) == Decimal(n)
    ensures m == n
  {
    var s := Decimal(m);
    assert s[|s| - 1] == Digit(m % 10) && s[|s| - 1] == Digit(n % 10);
    if m >= 10 {
      assert s[..|s| - 1] == Decimal(m / 10) && s[..|s| - 1] == Decimal(n / 10);
      DecimalInjective(m / 10, n / 10);
    }
  }
}
