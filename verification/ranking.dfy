/** Ranked results: `(distance, path)` tuples in the order Python's
    `sorted()` gives them, distance first, then the path compared
    character by character. */
module Ranking {

  datatype Entry = Entry(distance: real, path: string)

  /** Python's `a <= b` on strings: lexicographic by code point, a proper
      prefix coming first. */
  predicate StrLe(a: string, b: string)
  {
    if a == [] then true
    else if b == [] then false
    else if a[0] != b[0] then a[0] < b[0]
    else StrLe(a[1..], b[1..])
  }

  /** Python's `x <= y` on `(distance, path)` tuples. */
  predicate EntryLe(x: Entry, y: Entry)
  {
    x.distance < y.distance || (x.distance == y.distance && StrLe(x.path, y.path))
  }

  predicate Sorted(s: seq<Entry>)
  {
    forall i, j :: 0 <= i < j < |s| ==> EntryLe(s[i], s[j])
  }

  lemma {:induction false} StrLeReflexive(a: string)
    ensures StrLe(a, a)
  {
    if a != [] {
      StrLeReflexive(a[1..]);
    }
  }

  lemma {:induction false} StrLeTotal(a: string, b: string)
    ensures StrLe(a, b) || StrLe(b, a)
  {
    if a != [] && b != [] && a[0] == b[0] {
      StrLeTotal(a[1..], b[1..]);
    }
  }

  lemma {:induction false} StrLeAntisymmetric(a: string, b: string)
    requires StrLe(a, b) && StrLe(b, a)
    ensures a == b
  {
    if a != [] && b != [] {
      StrLeAntisymmetric(a[1..], b[1..]);
      assert a == [a[0]] + a[1..] && b == [b[0]] + b[1..];
    }
  }

  lemma {:induction false} StrLeTransitive(a: string, b: string, c: string)
    requires StrLe(a, b) && StrLe(b, c)
    ensures StrLe(a, c)
  {
    if a != [] && b != [] && c != [] && a[0] == b[0] && b[0] == c[0] {
      StrLeTransitive(a[1..], b[1..], c[1..]);
    }
  }

  /** The tuple order is a total order: reflexive, total, antisymmetric and
      transitive, so a sorted arrangement of a collection is unique. */
  lemma EntryLeTotalOrder(x: Entry, y: Entry, z: Entry)
    ensures EntryLe(x, x)
    ensures EntryLe(x, y) || EntryLe(y, x)
    ensures EntryLe(x, y) && EntryLe(y, x) ==> x == y
    ensures EntryLe(x, y) && EntryLe(y, z) ==> EntryLe(x, z)
  {
    StrLeReflexive(x.path);
    StrLeTotal(x.path, y.path);
    if EntryLe(x, y) && EntryLe(y, x) {
      StrLeAntisymmetric(x.path, y.path);
    }
    if EntryLe(x, y) && EntryLe(y, z) && x.distance == y.distance == z.distance {
      StrLeTransitive(x.path, y.path, z.path);
    }
  }

  /** Inserts `x` into a sorted sequence before the first element it does
      not exceed. */
  function Insert(x: Entry, s: seq<Entry>): seq<Entry>
  {
    if s == [] || EntryLe(x, s[0]) then [x] + s else [s[0]] + Insert(x, s[1..])
  }

  /** Python's `sorted()` on a list of `(distance, path)` tuples. */
  function Sort(s: seq<Entry>): seq<Entry>
  {
    if s == [] then [] else Insert(s[0], Sort(s[1..]))
  }

  /** A sequence is sorted when its head is at most every later element and
      its tail is sorted. */
  lemma SortedCons(y: Entry, t: seq<Entry>)
    requires forall k :: 0 <= k < |t| ==> EntryLe(y, t[k])
    requires Sorted(t)
    ensures Sorted([y] + t)
  {
    var r := [y] + t;
    forall i, j | 0 <= i < j < |r| ensures EntryLe(r[i], r[j]) {
      if i == 0 {
        assert r[j] == t[j - 1];
      } else {
        assert r[i] == t[i - 1] && r[j] == t[j - 1];
      }
    }
  }

  lemma {:induction false} InsertPermutation(x: Entry, s: seq<Entry>)
    ensures multiset(Insert(x, s)) == multiset(s) + multiset{x}
  {
    if s != [] && !EntryLe(x, s[0]) {
      InsertPermutation(x, s[1..]);
      assert s == [s[0]] + s[1..];
    }
  }

  lemma {:induction false} InsertSorted(x: Entry, s: seq<Entry>)
    requires Sorted(s)
    ensures Sorted(Insert(x, s))
  {
    if s == [] || EntryLe(x, s[0]) {
      forall k | 0 <= k < |s| ensures EntryLe(x, s[k]) {
        EntryLeTotalOrder(x, s[0], s[k]);
      }
      SortedCons(x, s);
    } else {
      var tail := s[1..];
      var t := Insert(x, tail);
      InsertSorted(x, tail);
      InsertPermutation(x, tail);
      EntryLeTotalOrder(x, s[0], x);
      forall k | 0 <= k < |t| ensures EntryLe(s[0], t[k]) {
        assert t[k] in multiset(t);
        if t[k] != x {
          assert t[k] in tail;
          var m :| 0 <= m < |tail| && tail[m] == t[k];
          assert s[m + 1] == t[k];
        }
      }
      SortedCons(s[0], t);
    }
  }

  lemma {:induction false} SortPermutation(s: seq<Entry>)
    ensures multiset(Sort(s)) == multiset(s)
  {
    if s != [] {
      SortPermutation(s[1..]);
      InsertPermutation(s[0], Sort(s[1..]));
      assert s == [s[0]] + s[1..];
    }
  }

  lemma {:induction false} SortSorted(s: seq<Entry>)
    ensures Sorted(Sort(s))
  {
    if s != [] {
      SortSorted(s[1..]);
      InsertSorted(s[0], Sort(s[1..]));
    }
  }

  /** `Sort` returns a sorted permutation of its input. */
  lemma SortSortedPermutation(s: seq<Entry>)
    ensures multiset(Sort(s)) == multiset(s)
    ensures |Sort(s)| == |s|
    ensures Sorted(Sort(s))
  {
    SortPermutation(s);
    SortSorted(s);
    assert |multiset(Sort(s))| == |Sort(s)|;
  }

  /** The head of a sorted sequence is at most each of its elements. */
  lemma SortedHeadIsLeast(a: seq<Entry>, e: Entry)
    requires Sorted(a) && e in multiset(a)
    ensures EntryLe(a[0], e)
  {
    var k :| 0 <= k < |a| && a[k] == e;
    if k == 0 {
      EntryLeTotalOrder(e, e, e);
    }
  }

  /** Two sorted arrangements of the same entries are the same sequence, so
      `Sort` gives exactly what `sorted()` gives, whatever algorithm it uses. */
  lemma {:induction false} SortedPermutationUnique(a: seq<Entry>, b: seq<Entry>)
    requires Sorted(a) && Sorted(b)
    requires multiset(a) == multiset(b)
    ensures a == b
  {
    assert |a| == |multiset(a)| == |b|;
    if a != [] {
      SortedSameHead(a, b);
      SortedTail(a);
      SortedTail(b);
      SortedPermutationUnique(a[1..], b[1..]);
      assert a == [a[0]] + a[1..] && b == [b[0]] + b[1..];
    }
  }

  /** Two non-empty sorted arrangements of the same entries start alike. */
  lemma SortedSameHead(a: seq<Entry>, b: seq<Entry>)
    requires Sorted(a) && Sorted(b) && a != [] && b != []
    requires multiset(a) == multiset(b)
    ensures a[0] == b[0]
  {
    assert b[0] in multiset(b) && a[0] in multiset(a);
    SortedHeadIsLeast(a, b[0]);
    SortedHeadIsLeast(b, a[0]);
    EntryLeTotalOrder(a[0], b[0], a[0]);
  }

  /** The tail of a sorted sequence is sorted and holds the other entries. */
  lemma SortedTail(a: seq<Entry>)
    requires Sorted(a) && a != []
    ensures Sorted(a[1..])
    ensures multiset(a[1..]) == multiset(a) - multiset{a[0]}
  {
    assert a == [a[0]] + a[1..];
  }
}
