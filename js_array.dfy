/** The JavaScript array operations that the page list is edited with: `indexOf` and
    `includes` on object references, `filter` with a "not included" test and `splice`
    with its handling of negative and out-of-range positions. */
module JsArray {

  /** `s.indexOf(x)`: the first position of `x`, or -1 when `x` is absent. */
  function IndexOf<T(==)>(s: seq<T>, x: T): (r: int)
    ensures -1 <= r < |s|
    ensures r == -1 <==> x !in s
    ensures r >= 0 ==> s[r] == x && x !in s[..r]
  {
    if s == [] then -1
    else if s[0] == x then 0
    else
      var r := IndexOf(s[1..], x);
      assert s[1..][..if r < 0 then 0 else r] == s[1..1 + if r < 0 then 0 else r];
      if r < 0 then -1 else r + 1
  }

  /** The first position where `x` occurs is `IndexOf`. */
  lemma IndexOfFirst<T>(s: seq<T>, i: nat, x: T)
    requires i < |s| && s[i] == x && x !in s[..i]
    ensures IndexOf(s, x) == i
  {
    var r := IndexOf(s, x);
    assert s[..r + 1][r] == x;
    assert s[..i + 1][i] == x;
  }

  /** Where `splice(start, …)` begins: a negative start counts from the end, and the
      position is clamped into `0..|s|`. */
  function SpliceStart(len: nat, start: int): (r: nat)
    ensures r <= len
    ensures 0 <= start <= len ==> r == start
    ensures -(len as int) <= start < 0 ==> r == len + start
  {
    if start < 0 then (if len + start < 0 then 0 else len + start)
    else if start > len then len
    else start
  }

  /** The array after `s.splice(start, deleteCount, ...items)`. */
  function Splice<T>(s: seq<T>, start: int, deleteCount: nat, items: seq<T>): (r: seq<T>)
    ensures |r| == |s| - (if SpliceStart(|s|, start) + deleteCount <= |s| then deleteCount else |s| - SpliceStart(|s|, start)) + |items|
    ensures r[..SpliceStart(|s|, start)] == s[..SpliceStart(|s|, start)]
  {
    var a := SpliceStart(|s|, start);
    var e := if a + deleteCount <= |s| then a + deleteCount else |s|;
    assert (s[..a] + items + s[e..])[..a] == s[..a];
    s[..a] + items + s[e..]
  }

  /** Inside the array, splice puts `items` in place of `deleteCount` elements at `start`. */
  lemma SpliceInRange<T>(s: seq<T>, start: nat, deleteCount: nat, items: seq<T>)
    requires start + deleteCount <= |s|
    ensures Splice(s, start, deleteCount, items) == s[..start] + items + s[start + deleteCount..]
  {
  }

  /** Splicing nothing in and deleting nothing leaves the array as it was, wherever. */
  lemma SpliceNothing<T>(s: seq<T>, start: int)
    ensures Splice(s, start, 0, []) == s
  {
    var a := SpliceStart(|s|, start);
    assert s[..a] + s[a..] == s;
  }

  /** Cutting a sequence at `p`: the two parts, written either way, make it up again. */
  lemma SliceAt<T>(s: seq<T>, p: nat)
    requires p <= |s|
    ensures s[0..p] == s[..p] && s[p..|s|] == s[p..] && s[..p] + s[p..] == s
  {
  }

  /** A block put at position 0 comes first. */
  lemma BlockAtStart<T>(w: seq<T>, items: seq<T>)
    ensures w[..0] + items + w[0..] == items + w
  {
    assert w[..0] == [] && w[0..] == w;
  }

  /** `s.filter(e => !items.includes(e))`. */
  function Without<T(==)>(s: seq<T>, items: seq<T>): (r: seq<T>)
    ensures |r| <= |s|
    ensures forall k :: 0 <= k < |r| ==> r[k] !in items
  {
    if s == [] then []
    else if s[0] in items then Without(s[1..], items)
    else [s[0]] + Without(s[1..], items)
  }

  /** Every element not filtered out is kept. */
  lemma {:induction false} WithoutKeeps<T>(s: seq<T>, items: seq<T>, k: nat)
    requires k < |s| && s[k] !in items
    ensures s[k] in Without(s, items)
  {
    if k > 0 {
      assert s[k] == s[1..][k - 1];
      WithoutKeeps(s[1..], items, k - 1);
    }
  }

  /** No element that is filtered out is kept. */
  lemma {:induction false} WithoutExcludes<T>(s: seq<T>, items: seq<T>, x: T)
    requires x in items
    ensures x !in Without(s, items)
  {
    if s != [] {
      WithoutExcludes(s[1..], items, x);
    }
  }

  /** The filter keeps only elements of the list. */
  lemma {:induction false} WithoutFrom<T>(s: seq<T>, items: seq<T>, x: T)
    ensures x in Without(s, items) ==> x in s
  {
    if s != [] {
      WithoutFrom(s[1..], items, x);
    }
  }

  /** An element that is not filtered out splits the filtered list into what comes from
      before it and what comes from after it. */
  lemma WithoutAround<T>(s: seq<T>, items: seq<T>, i: nat)
    requires i < |s| && s[i] !in items
    ensures Without(s, items) == Without(s[..i], items) + ([s[i]] + Without(s[i + 1..], items))
  {
    SliceAt(s, i);
    WithoutConcat(s[..i], s[i..], items);
    assert s[i..] == [s[i]] + s[i + 1..];
  }

  /** An element not in the front part is first found right after it. */
  lemma IndexAfter<T>(front: seq<T>, x: T, back: seq<T>)
    requires x !in front
    ensures IndexOf(front + ([x] + back), x) == |front|
  {
    var w := front + ([x] + back);
    assert w[..|front|] == front && w[|front|] == x;
    IndexOfFirst(w, |front|, x);
  }

  /** A block spliced in one before the end sits before the last element. */
  lemma BlockBeforeLast<T>(w: seq<T>, items: seq<T>)
    requires w != []
    ensures w[..|w| - 1] + items + w[|w| - 1..] == w[..|w| - 1] + items + [w[|w| - 1]]
  {
    assert w[|w| - 1..] == [w[|w| - 1]];
  }

  /** Filtering distributes over concatenation, so it keeps relative order. */
  lemma {:induction false} WithoutConcat<T>(a: seq<T>, b: seq<T>, items: seq<T>)
    ensures Without(a + b, items) == Without(a, items) + Without(b, items)
  {
    if a != [] {
      assert (a + b)[0] == a[0] && (a + b)[1..] == a[1..] + b;
      WithoutConcat(a[1..], b, items);
    } else {
      assert a + b == b;
    }
  }

  /** Filtering out elements the array does not hold changes nothing. */
  lemma {:induction false} WithoutNone<T>(s: seq<T>, items: seq<T>)
    requires forall k :: 0 <= k < |s| ==> s[k] !in items
    ensures Without(s, items) == s
  {
    if s != [] {
      WithoutNone(s[1..], items);
    }
  }

  /** Filtering twice by the same list is filtering once. */
  lemma WithoutIdempotent<T>(s: seq<T>, items: seq<T>)
    ensures Without(Without(s, items), items) == Without(s, items)
  {
    WithoutNone(Without(s, items), items);
  }

  /** A slice of a filtered list has nothing left to filter out. */
  lemma FilteredSliceUnchanged<T>(s: seq<T>, items: seq<T>, i: nat, j: nat)
    requires i <= j <= |Without(s, items)|
    ensures Without(Without(s, items)[i..j], items) == Without(s, items)[i..j]
  {
    var w := Without(s, items);
    forall k | 0 <= k < j - i ensures w[i..j][k] !in items {
      assert w[i..j][k] == w[i + k];
    }
    WithoutNone(w[i..j], items);
  }

  lemma {:induction false} WithoutCovered<T>(s: seq<T>, items: seq<T>)
    requires forall k :: 0 <= k < |s| ==> s[k] in items
    ensures Without(s, items) == []
  {
    if s != [] {
      WithoutCovered(s[1..], items);
    }
  }

  /** Filtering a list by itself leaves nothing. */
  lemma WithoutEverything<T>(items: seq<T>)
    ensures Without(items, items) == []
  {
    WithoutCovered(items, items);
  }

  /** The filtered-out items, put back as a block between two parts that hold none of
      them, are filtered out again. */
  lemma WithoutInsertedBlock<T>(a: seq<T>, b: seq<T>, items: seq<T>)
    requires Without(a, items) == a && Without(b, items) == b
    ensures Without(a + items + b, items) == a + b
  {
    calc {
      Without(a + items + b, items);
      { WithoutConcat(a + items, b, items); }
      Without(a + items, items) + Without(b, items);
      { WithoutConcat(a, items, items); }
      Without(a, items) + Without(items, items) + Without(b, items);
      { WithoutEverything(items); }
      a + [] + b;
      { assert a + [] == a; }
      a + b;
    }
  }
}
