/** The order that `PageTreeProvider.sort` puts pages in. The source hands its comparator
    to `Array.prototype.sort`, which is stable (ECMAScript 2019 onwards); the library sort
    is modelled by a stable insertion sort on (label, item) pairs, and the lemmas below
    say what its result is: a permutation, ordered by the comparator, and with every group
    of equal labels in its original order. */
module LabelSort {
  import opened Text

  /** One list entry together with the label the comparator sees. */
  datatype Keyed<T> = Keyed(key: string, item: T)

  /** The comparator of `sort`: 0 for equal labels; otherwise, when the first label is
      the smaller, 1 if `ascending` and -1 if not, and the reverse when it is the larger. */
  function Compare(a: string, b: string, ascending: bool): (c: int)
    ensures c == 0 <==> a == b
    ensures c in {-1, 0, 1}
  {
    if a == b then 0
    else
      LexLessTotal(a, b);
      if LexLess(a, b) then
        LexLessAsymmetric(a, b);
        if ascending then 1 else -1
      else
        if ascending then -1 else 1
  }

  /** The comparator puts `a` strictly before `b`. */
  predicate Before(a: string, b: string, ascending: bool) {
    Compare(a, b, ascending) < 0
  }

  /** The inverted sense of the flag: `ascending` puts the larger label first. */
  lemma BeforeMeaning(a: string, b: string, ascending: bool)
    ensures Before(a, b, ascending) <==> if ascending then LexLess(b, a) else LexLess(a, b)
  {
    if a == b {
      LexLessIrreflexive(a);
    } else {
      LexLessTotal(a, b);
      if LexLess(a, b) { LexLessAsymmetric(a, b); }
      if LexLess(b, a) { LexLessAsymmetric(b, a); }
    }
  }

  /** "Not after" is transitive, so a sequence ordered pairwise by neighbours is ordered. */
  lemma NotBeforeTransitive(a: string, b: string, c: string, ascending: bool)
    requires !Before(c, b, ascending) && !Before(b, a, ascending)
    ensures !Before(c, a, ascending)
  {
    BeforeMeaning(c, b, ascending);
    BeforeMeaning(b, a, ascending);
    BeforeMeaning(c, a, ascending);
    if a != b && b != c {
      LexLessTotal(a, b);
      LexLessTotal(b, c);
      if ascending {
        if LexLess(a, c) {
          LexLessTransitive(c, b, a);
          LexLessAsymmetric(a, c);
        }
      } else {
        if LexLess(c, a) {
          LexLessTransitive(a, b, c);
          LexLessAsymmetric(a, c);
        }
      }
    }
  }

  /** The comparator is antisymmetric, as `Array.prototype.sort` needs. */
  lemma CompareAntisymmetric(a: string, b: string, ascending: bool)
    ensures Compare(a, b, ascending) == -Compare(b, a, ascending)
  {
    if a != b {
      LexLessTotal(a, b);
      if LexLess(a, b) { LexLessAsymmetric(a, b); } else { LexLessAsymmetric(b, a); }
    }
  }

  /** No entry is put before one that comes earlier in the sequence. */
  ghost predicate Sorted<T>(s: seq<Keyed<T>>, ascending: bool) {
    forall i, j :: 0 <= i < j < |s| ==> !Before(s[j].key, s[i].key, ascending)
  }

  /** Insert `x` ahead of the first entry the comparator does not put strictly before it. */
  function Insert<T>(x: Keyed<T>, s: seq<Keyed<T>>, ascending: bool): seq<Keyed<T>> {
    if s == [] then [x]
    else if Before(s[0].key, x.key, ascending) then [s[0]] + Insert(x, s[1..], ascending)
    else [x] + s
  }

  /** `Insert` is an insertion: it puts `x` between a front and a back part of `s`. */
  lemma {:induction false} InsertSplit<T>(x: Keyed<T>, s: seq<Keyed<T>>, ascending: bool) returns (front: seq<Keyed<T>>, back: seq<Keyed<T>>)
    ensures s == front + back
    ensures Insert(x, s, ascending) == front + [x] + back
  {
    if s == [] {
      front, back := [], [];
    } else if Before(s[0].key, x.key, ascending) {
      var f, b := InsertSplit(x, s[1..], ascending);
      front, back := [s[0]] + f, b;
      assert s == [s[0]] + s[1..];
      assert [s[0]] + (f + [x] + b) == front + [x] + back;
    } else {
      front, back := [], s;
    }
  }

  /** The stable sort: each entry goes in front of the entries equal to it that follow. */
  function SortKeyed<T>(s: seq<Keyed<T>>, ascending: bool): seq<Keyed<T>> {
    if s == [] then [] else Insert(s[0], SortKeyed(s[1..], ascending), ascending)
  }

  /** An element put between two parts adds itself to the multiset of both parts. */
  lemma MultisetInsert<T>(a: seq<T>, y: T, b: seq<T>)
    ensures multiset(a + [y] + b) == multiset(a + b) + multiset{y}
  {
  }

  /** `Insert` adds `x` to the entries and loses none. */
  lemma InsertPermutes<T>(x: Keyed<T>, s: seq<Keyed<T>>, ascending: bool)
    ensures multiset(Insert(x, s, ascending)) == multiset(s) + multiset{x}
  {
    var front, back := InsertSplit(x, s, ascending);
    MultisetInsert(front, x, back);
  }

  /** The sort is a permutation of the entries. */
  lemma {:induction false} SortKeyedPermutes<T>(s: seq<Keyed<T>>, ascending: bool)
    ensures multiset(SortKeyed(s, ascending)) == multiset(s)
  {
    if s != [] {
      SortKeyedPermutes(s[1..], ascending);
      InsertPermutes(s[0], SortKeyed(s[1..], ascending), ascending);
      assert s == [s[0]] + s[1..];
    }
  }

  /** An entry that no later entry is put before can head a sorted sequence. */
  lemma ConsSorted<T>(h: Keyed<T>, t: seq<Keyed<T>>, ascending: bool)
    requires Sorted(t, ascending)
    requires forall j :: 0 <= j < |t| ==> !Before(t[j].key, h.key, ascending)
    ensures Sorted([h] + t, ascending)
  {
    var r := [h] + t;
    forall i, j | 0 <= i < j < |r| ensures !Before(r[j].key, r[i].key, ascending) {
      assert r[j] == t[j - 1];
      if i > 0 { assert r[i] == t[i - 1]; }
    }
  }

  /** Nothing after the head of a sorted sequence is put before it. */
  lemma SortedHeadFirst<T>(s: seq<Keyed<T>>, ascending: bool, y: Keyed<T>)
    requires Sorted(s, ascending) && s != [] && y in s[1..]
    ensures !Before(y.key, s[0].key, ascending)
  {
    var m :| 0 <= m < |s[1..]| && s[1..][m] == y;
    assert s[m + 1] == y;
  }

  /** `Insert` adds `x` and nothing else. */
  lemma {:induction false} InsertMembers<T>(x: Keyed<T>, s: seq<Keyed<T>>, ascending: bool, y: Keyed<T>)
    requires y in Insert(x, s, ascending)
    ensures y == x || y in s
  {
    InsertPermutes(x, s, ascending);
    assert y in multiset(Insert(x, s, ascending));
  }

  lemma {:induction false} InsertSorted<T>(x: Keyed<T>, s: seq<Keyed<T>>, ascending: bool)
    requires Sorted(s, ascending)
    ensures Sorted(Insert(x, s, ascending), ascending)
  {
    if s == [] {
    } else if Before(s[0].key, x.key, ascending) {
      var t := Insert(x, s[1..], ascending);
      InsertSorted(x, s[1..], ascending);
      CompareAntisymmetric(x.key, s[0].key, ascending);
      forall j | 0 <= j < |t| ensures !Before(t[j].key, s[0].key, ascending) {
        InsertMembers(x, s[1..], ascending, t[j]);
        if t[j] != x { SortedHeadFirst(s, ascending, t[j]); }
      }
      ConsSorted(s[0], t, ascending);
    } else {
      forall j | 0 <= j < |s| ensures !Before(s[j].key, x.key, ascending) {
        if j > 0 { NotBeforeTransitive(x.key, s[0].key, s[j].key, ascending); }
      }
      ConsSorted(x, s, ascending);
    }
  }

  /** The result of the sort is ordered by the comparator. */
  lemma {:induction false} SortKeyedSorted<T>(s: seq<Keyed<T>>, ascending: bool)
    ensures Sorted(SortKeyed(s, ascending), ascending)
  {
    if s != [] {
      SortKeyedSorted(s[1..], ascending);
      InsertSorted(s[0], SortKeyed(s[1..], ascending), ascending);
    }
  }

  /** The entries whose label is `k`, in their order. */
  function WithKey<T>(s: seq<Keyed<T>>, k: string): (r: seq<Keyed<T>>)
    ensures forall i :: 0 <= i < |r| ==> r[i].key == k
  {
    if s == [] then []
    else if s[0].key == k then [s[0]] + WithKey(s[1..], k)
    else WithKey(s[1..], k)
  }

  lemma {:induction false} InsertStable<T>(x: Keyed<T>, s: seq<Keyed<T>>, ascending: bool, k: string)
    ensures WithKey(Insert(x, s, ascending), k) == if x.key == k then [x] + WithKey(s, k) else WithKey(s, k)
  {
    if s == [] {
    } else if Before(s[0].key, x.key, ascending) {
      InsertStable(x, s[1..], ascending, k);
      assert s[0].key != x.key;
      assert ([s[0]] + Insert(x, s[1..], ascending))[1..] == Insert(x, s[1..], ascending);
    } else {
      assert ([x] + s)[1..] == s;
    }
  }

  /** Stability: for every label, the entries carrying it keep their relative order. */
  lemma {:induction false} SortKeyedStable<T>(s: seq<Keyed<T>>, ascending: bool, k: string)
    ensures WithKey(SortKeyed(s, ascending), k) == WithKey(s, k)
  {
    if s != [] {
      SortKeyedStable(s[1..], ascending, k);
      InsertStable(s[0], SortKeyed(s[1..], ascending), ascending, k);
    }
  }

  /** `sort(true)` leaves the labels non-increasing, `sort(false)` non-decreasing. */
  lemma SortDirection<T>(s: seq<Keyed<T>>, ascending: bool, i: nat, j: nat)
    requires i < j < |SortKeyed(s, ascending)|
    ensures var r := SortKeyed(s, ascending);
      if ascending then !LexLess(r[i].key, r[j].key) else !LexLess(r[j].key, r[i].key)
  {
    var r := SortKeyed(s, ascending);
    SortKeyedSorted(s, ascending);
    BeforeMeaning(r[j].key, r[i].key, ascending);
  }
}
