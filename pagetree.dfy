/** The page list of the PDF tools tree view (`PageTreeProvider` in src/pagetree.ts):
    an ordered list of page items, each bound to a page of one in-memory PDF container,
    edited in place by drag and drop, removal, renaming, sorting, splitting and combining.
    Items are objects compared by reference, as the source's `includes` and `indexOf` do. */
module PageTree {
  import opened Text
  import opened JsArray
  import opened LabelSort

  datatype Option<T> = None | Some(value: T)

  /** The two split/combine commands: "h" and "v". */
  datatype Direction = Horizontal | Vertical

  /** A page of the PDF library, reduced to what the list logic looks at: its size and its
      rotation angle in degrees. Its content is opaque. */
  class PdfPage {
    const width: real
    const height: real
    var angle: int

    constructor (width: real, height: real, angle: int)
      ensures this.width == width && this.height == height && this.angle == angle
    {
      this.width := width;
      this.height := height;
      this.angle := angle;
    }
  }

  /** `PageItemContext`: the library page an item shows and its index in the container.
      `page` is null where the source would hold `undefined` (an index past the end). */
  datatype PageContext = PageContext(page: PdfPage?, pageIndex: nat)

  /** `PageItem`: a tree entry with a label (`labelText`; `label` is a Dafny keyword), an optional description and, except for the
      placeholder, a page context. The context is set once, by the constructor. */
  class PageItem {
    var labelText: string
    var description: Option<string>
    const ctx: Option<PageContext>

    constructor (labelText: string, description: Option<string>, ctx: Option<PageContext>)
      ensures this.labelText == labelText && this.description == description && this.ctx == ctx
    {
      this.labelText := labelText;
      this.description := description;
      this.ctx := ctx;
    }
  }

  /** The label of the placeholder shown when the list is empty. */
  const PlaceholderLabel: string := "<none>"

  /** The size `addPage()` gives a new blank page (the library's A4 default, in points). */
  const BlankWidth: real := 595.28
  const BlankHeight: real := 841.89

  // ---------------------------------------------------------------------------------
  // refreshTree: drop undefined entries and the placeholder, then re-add the placeholder
  // when nothing is left.

  /** The entries that are neither undefined (null) nor the placeholder, in order. */
  function RealItems(d: seq<PageItem?>, placeholder: PageItem): (r: seq<PageItem>)
    ensures |r| <= |d|
    ensures forall k :: 0 <= k < |r| ==> r[k] in d && r[k] != placeholder
  {
    if d == [] then []
    else if d[0] == null || d[0] == placeholder then RealItems(d[1..], placeholder)
    else [d[0]] + RealItems(d[1..], placeholder)
  }

  /** The list after `refreshTree`, given the list it starts from. */
  function Refresh(d: seq<PageItem?>, placeholder: PageItem): (r: seq<PageItem>)
    ensures r != []
    ensures placeholder in r ==> r == [placeholder]
    ensures r == [placeholder] <==> forall k :: 0 <= k < |d| ==> d[k] == null || d[k] == placeholder
    ensures forall k :: 0 <= k < |r| && r[k] != placeholder ==> r[k] in d
  {
    var kept := RealItems(d, placeholder);
    assert kept != [] ==> kept[0] in d && kept[0] != placeholder;
    RealItemsComplete(d, placeholder);
    if kept == [] then [placeholder] else kept
  }

  /** Every real item of the list survives the filter. */
  lemma {:induction false} RealItemsComplete(d: seq<PageItem?>, placeholder: PageItem)
    ensures forall k :: 0 <= k < |d| && d[k] != null && d[k] != placeholder ==> d[k] in RealItems(d, placeholder)
  {
    if d != [] {
      RealItemsComplete(d[1..], placeholder);
      forall k | 1 <= k < |d| ensures d[k] == d[1..][k - 1] {}
    }
  }

  /** Every real item of the list is still there after a refresh. */
  lemma RefreshComplete(d: seq<PageItem?>, placeholder: PageItem)
    ensures forall k :: 0 <= k < |d| && d[k] != null && d[k] != placeholder ==> d[k] in Refresh(d, placeholder)
  {
    RealItemsComplete(d, placeholder);
  }

  /** Keeping the real items keeps their relative order. */
  lemma {:induction false} RealItemsConcat(a: seq<PageItem?>, b: seq<PageItem?>, placeholder: PageItem)
    ensures RealItems(a + b, placeholder) == RealItems(a, placeholder) + RealItems(b, placeholder)
  {
    if a == [] {
      assert a + b == b;
    } else {
      assert (a + b)[0] == a[0] && (a + b)[1..] == a[1..] + b;
      RealItemsConcat(a[1..], b, placeholder);
    }
  }

  /** A list with neither undefined entries nor the placeholder is its own real part. */
  lemma {:induction false} RealItemsOfReal(d: seq<PageItem>, placeholder: PageItem)
    requires placeholder !in d
    ensures RealItems(d, placeholder) == d
  {
    if d != [] {
      RealItemsOfReal(d[1..], placeholder);
    }
  }

  /** Refreshing twice is refreshing once, so the second `refreshTree` of `combine`
      (after the one inside `remove`) changes nothing. */
  lemma RefreshIdempotent(d: seq<PageItem?>, placeholder: PageItem)
    ensures Refresh(Refresh(d, placeholder), placeholder) == Refresh(d, placeholder)
  {
    var r := Refresh(d, placeholder);
    if placeholder !in r {
      RealItemsOfReal(r, placeholder);
    }
  }

  /** The state that every operation ending in `refreshTree` leaves: never empty, and the
      placeholder only on its own. */
  ghost predicate Displayable(d: seq<PageItem>, placeholder: PageItem) {
    d != [] && (placeholder in d ==> d == [placeholder])
  }

  // ---------------------------------------------------------------------------------
  // moveTo: filter the moved items out, then splice them back in at a computed place.

  /** The position `moveTo` passes to `splice`, computed as the source does; what it
      amounts to is stated by `MovePositionAtTop` and `MovePositionAfterTarget`. */
  function MovePosition(data: seq<PageItem>, items: seq<PageItem>, target: PageItem?): int {
    var moveToTop := target != null && IndexOf(data, target) == 0;
    var filtered := Without(data, items);
    if moveToTop then 0
    else if target != null then IndexOf(filtered, target) + 1
    else |filtered| - 1
  }

  /** A target that was first, is one of the moved items or is not in the list at all
      puts the block at the top. */
  lemma MovePositionAtTop(data: seq<PageItem>, items: seq<PageItem>, target: PageItem)
    requires target !in data || target in items || data[0] == target
    ensures MovePosition(data, items, target) == 0
  {
    var w := Without(data, items);
    if data != [] && data[0] == target {
      IndexOfFirst(data, 0, target);
    } else {
      WithoutFrom(data, items, target);
      if target in items {
        WithoutExcludes(data, items, target);
      }
      assert IndexOf(w, target) == -1;
    }
  }

  /** A target that stays and is not first puts the block after the items that stay and
      come before it in the list as it was. */
  lemma MovePositionAfterTarget(data: seq<PageItem>, items: seq<PageItem>, target: PageItem)
    requires target in data && target !in items && data[0] != target
    ensures MovePosition(data, items, target) == |Without(data[..IndexOf(data, target)], items)| + 1
  {
    assert IndexOf(data, target) != 0;
    StayingTargetIndex(data, items, target);
  }

  /** A target that stays is found after the items that stay and precede it. */
  lemma StayingTargetIndex(data: seq<PageItem>, items: seq<PageItem>, target: PageItem)
    requires target in data && target !in items
    ensures IndexOf(Without(data, items), target) == |Without(data[..IndexOf(data, target)], items)|
  {
    var i := IndexOf(data, target);
    WithoutAround(data, items, i);
    WithoutFrom(data[..i], items, target);
    IndexAfter(Without(data[..i], items), target, Without(data[i + 1..], items));
  }

  /** The list after `moveTo(items, target)`. */
  function MoveResult(data: seq<PageItem>, items: seq<PageItem>, target: PageItem?): seq<PageItem> {
    Splice(Without(data, items), MovePosition(data, items, target), 0, items)
  }

  /** The moved items come back as one block, in the order given, inside the filtered list. */
  lemma MoveIsBlockInsertion(data: seq<PageItem>, items: seq<PageItem>, target: PageItem?)
    ensures var w := Without(data, items);
      var p := SpliceStart(|w|, MovePosition(data, items, target));
      MoveResult(data, items, target) == w[..p] + items + w[p..]
  {
    var w := Without(data, items);
    var p := SpliceStart(|w|, MovePosition(data, items, target));
    SpliceInRange(w, p, 0, items);
  }

  /** The items not moved keep their relative order. */
  lemma MoveKeepsOthers(data: seq<PageItem>, items: seq<PageItem>, target: PageItem?)
    ensures Without(MoveResult(data, items, target), items) == Without(data, items)
  {
    var w := Without(data, items);
    var p := SpliceStart(|w|, MovePosition(data, items, target));
    MoveIsBlockInsertion(data, items, target);
    FilteredSliceUnchanged(data, items, 0, p);
    FilteredSliceUnchanged(data, items, p, |w|);
    SliceAt(w, p);
    WithoutInsertedBlock(w[..p], w[p..], items);
  }

  /** Moving nothing changes nothing. */
  lemma MoveNothing(data: seq<PageItem>, target: PageItem?)
    ensures MoveResult(data, [], target) == data
  {
    WithoutNone(data, []);
    SpliceNothing(data, MovePosition(data, [], target));
  }

  /** Dropping onto the first item puts the block at the top. */
  lemma MoveOntoFirst(data: seq<PageItem>, items: seq<PageItem>, target: PageItem)
    requires data != [] && data[0] == target
    ensures MoveResult(data, items, target) == items + Without(data, items)
  {
    MoveIsBlockInsertion(data, items, target);
    BlockAtStart(Without(data, items), items);
  }

  /** Dropping onto any other item still in the list puts the block right after it, in the
      list without the moved items (see `MoveOneDown` and `MoveOneUp`). */
  lemma MoveOntoOther(data: seq<PageItem>, items: seq<PageItem>, target: PageItem)
    requires target in data && data[0] != target && target !in items
    ensures var w := Without(data, items);
      var i := IndexOf(w, target);
      0 <= i < |w| && w[i] == target && MoveResult(data, items, target) == w[..i + 1] + items + w[i + 1..]
  {
    WithoutKeeps(data, items, IndexOf(data, target));
    MoveIsBlockInsertion(data, items, target);
  }

  /** Filtering out one item that occurs once, between `a` and `d`, leaves `a + d`. */
  lemma {:induction false} WithoutOne(a: seq<PageItem>, x: PageItem, d: seq<PageItem>)
    requires x !in a && x !in d
    ensures Without(a + [x] + d, [x]) == a + d
  {
    WithoutConcat(a + [x], d, [x]);
    WithoutConcat(a, [x], [x]);
    WithoutNone(a, [x]);
    WithoutNone(d, [x]);
    assert Without([x], [x]) == [];
  }

  /** Putting `x` right after `t` in `front + [t] + back`. */
  lemma {:induction false} InsertAfter<T>(front: seq<T>, t: T, back: seq<T>, x: T)
    ensures var w := front + [t] + back;
      w[..|front| + 1] + [x] + w[|front| + 1..] == front + [t, x] + back
  {
    var w := front + [t] + back;
    assert w[..|front| + 1] == front + [t] && w[|front| + 1..] == back;
    assert (front + [t]) + [x] == front + [t, x];
  }

  /** Where a single moved item lands: right after the target in the list without it. */
  lemma {:induction false} MoveOneAfter(data: seq<PageItem>, x: PageItem, front: seq<PageItem>, t: PageItem, back: seq<PageItem>)
    requires Without(data, [x]) == front + [t] + back && t !in front
    requires t in data && data[0] != t && t != x
    ensures MoveResult(data, [x], t) == front + [t, x] + back
  {
    assert front + [t] + back == front + ([t] + back);
    IndexAfter(front, t, back);
    MoveOntoOther(data, [x], t);
    InsertAfter(front, t, back, x);
  }

  /** One item dragged downwards onto `t` lands at `t`'s old index: `t` moves up by one
      when the item is filtered out, and the item goes in right after it. */
  lemma {:induction false} MoveOneDown(a: seq<PageItem>, x: PageItem, b: seq<PageItem>, t: PageItem, c: seq<PageItem>)
    requires x !in a && x !in b && x !in c && x != t && t !in a && t !in b
    ensures var data := a + [x] + b + [t] + c;
      && MoveResult(data, [x], t) == a + b + [t, x] + c
      && MoveResult(data, [x], t)[|a| + |b| + 1] == x && data[|a| + |b| + 1] == t
  {
    var data := a + [x] + b + [t] + c;
    var d := b + [t] + c;
    assert data == a + [x] + d;
    assert x !in d;
    WithoutOne(a, x, d);
    assert a + d == (a + b) + [t] + c;
    assert data[0] != t by {
      if a == [] { assert data[0] == x; } else { assert data[0] == a[0]; }
    }
    assert data[|a| + |b| + 1] == t;
    MoveOneAfter(data, x, a + b, t, c);
  }

  /** One item dragged upwards onto `t`, which is not first, lands one slot below `t`'s
      old index, right after it. */
  lemma {:induction false} MoveOneUp(a: seq<PageItem>, t: PageItem, b: seq<PageItem>, x: PageItem, c: seq<PageItem>)
    requires a != [] && x !in a && x !in b && x !in c && x != t && t !in a
    ensures var data := a + [t] + b + [x] + c;
      && MoveResult(data, [x], t) == a + [t, x] + b + c
      && MoveResult(data, [x], t)[|a| + 1] == x && data[|a|] == t
  {
    var data := a + [t] + b + [x] + c;
    var front := a + [t] + b;
    assert data == front + [x] + c;
    assert x !in front;
    WithoutOne(front, x, c);
    assert front + c == a + [t] + (b + c);
    assert data[0] == a[0];
    assert data[|a|] == t;
    MoveOneAfter(data, x, a, t, b + c);
    assert a + [t, x] + (b + c) == a + [t, x] + b + c;
  }

  /** Dropping onto one of the moved items (not the first of the list) puts the block at
      the top, because the target is no longer found in the filtered list. */
  lemma MoveOntoMovedItem(data: seq<PageItem>, items: seq<PageItem>, target: PageItem)
    requires target in items && (data == [] || data[0] != target)
    ensures MoveResult(data, items, target) == items + Without(data, items)
  {
    WithoutExcludes(data, items, target);
    MoveIsBlockInsertion(data, items, target);
    BlockAtStart(Without(data, items), items);
  }

  /** Without a target the block goes before the last remaining item, or alone into an
      empty list. */
  lemma MoveWithoutTarget(data: seq<PageItem>, items: seq<PageItem>)
    ensures var w := Without(data, items);
      MoveResult(data, items, null) == if w == [] then items else w[..|w| - 1] + items + [w[|w| - 1]]
  {
    var w := Without(data, items);
    MoveIsBlockInsertion(data, items, null);
    if w != [] {
      BlockBeforeLast(w, items);
    } else {
      assert SpliceStart(0, -1) == 0;
      BlockAtStart(w, items);
    }
  }

  // ---------------------------------------------------------------------------------
  // addPdfFile: labels from the file name.

  /** `fileName.substring(fileName.lastIndexOf("/") + 1, fileName.length - 4)`. */
  function FileLabel(fileName: string): string {
    Substring(fileName, LastIndexOf(fileName, '/') + 1, |fileName| - 4)
  }

  /** For a path ending in a file name of at least four characters, the label is the
      file name without its last four characters (the ".pdf" extension). */
  lemma FileLabelOfPath(dir: string, name: string)
    requires '/' !in name && |name| >= 4
    ensures FileLabel(dir + "/" + name) == name[..|name| - 4]
  {
    var f := dir + "/" + name;
    var i := LastIndexOf(f, '/');
    assert f[|dir|] == '/';
    forall j | |dir| < j < |f| ensures f[j] != '/' {
      assert f[j] == name[j - |dir| - 1];
    }
    assert i == |dir|;
    assert f[i + 1..|f| - 4] == name[..|name| - 4];
  }

  /** A bare file name without any directory loses only its last four characters. */
  lemma FileLabelOfName(name: string)
    requires '/' !in name && |name| >= 4
    ensures FileLabel(name) == name[..|name| - 4]
  {
    var i := LastIndexOf(name, '/');
    assert i == -1;
  }

  // ---------------------------------------------------------------------------------
  // split: the orientation test and the splice that replaces one item by two.

  /** JavaScript's `%` on integers: the remainder takes the sign of the dividend. */
  function JsRemainder(a: int, b: int): (r: int)
    requires b > 0
    ensures a >= 0 ==> 0 <= r < b
    ensures a < 0 ==> -b < r <= 0
    ensures (a - r) % b == 0
  {
    if a >= 0 then
      MultipleHasNoRemainder(b, a / b);
      assert a - a % b == b * (a / b);
      a % b
    else
      var q := (-a) / b;
      MultipleHasNoRemainder(b, -q);
      assert -a == b * q + (-a) % b;
      assert b * -q == -(b * q);
      -((-a) % b)
  }

  /** A multiple of `b` leaves no remainder. */
  lemma MultipleHasNoRemainder(b: int, k: int)
    requires b > 0
    ensures (b * k) % b == 0
  {
    var x := b * k;
    var q, m := x / b, x % b;
    assert b * (k - q) == m;
    // 0 <= m < b leaves no room for another multiple of b
    if k - q >= 1 {
      assert false;
    } else if k - q <= -1 {
      assert false;
    }
  }

  /** The test `angle / 90 % 2 === 1`. A quotient that is not whole leaves a remainder that
      is not whole either, so the test needs a multiple of 90. */
  predicate FlipsOrientation(angle: int) {
    angle % 90 == 0 && JsRemainder(angle / 90, 2) == 1
  }

  /** The test flips the orientation exactly for the positive odd multiples of 90
      (90, 270, 450, ...); a negative angle never flips it. */
  lemma FlipsOrientationIff(angle: int)
    ensures FlipsOrientation(angle) <==> angle > 0 && angle % 180 == 90
  {
    if angle % 90 == 0 {
      var q := angle / 90;
      assert angle == 90 * q;
      if q >= 0 {
        assert q % 2 == 1 <==> angle % 180 == 90;
      }
    }
  }

  /** `isHorizontal` in `split`: the direction asked for, flipped by the rotation test. */
  function IsHorizontal(direction: Direction, angle: int): bool {
    if FlipsOrientation(angle) then direction != Horizontal else direction == Horizontal
  }

  /** The rotation of the item's page, when it has one: the only thing a split decision
      reads that can change once the page exists. */
  function AngleOf(item: PageItem): Option<int>
    reads if item.ctx.Some? && item.ctx.value.page != null then {item.ctx.value.page} else {}
  {
    if item.ctx.Some? && item.ctx.value.page != null then Some(item.ctx.value.page.angle) else None
  }

  /** Whether `split` splits `item`, whose page is rotated by `angle`, when the container
      holds `pageCount` pages: the item has a page, the index names a page of the container
      (otherwise the library call throws and the error is caught), and the size fits the
      orientation. */
  predicate SplitsAt(item: PageItem, angle: Option<int>, direction: Direction, pageCount: nat) {
    && item.ctx.Some?
    && item.ctx.value.page != null
    && angle.Some?
    && item.ctx.value.pageIndex < pageCount
    && var page := item.ctx.value.page;
       var horizontal := IsHorizontal(direction, angle.value);
       (horizontal && page.height < page.width) || (!horizontal && page.width < page.height)
  }

  /** The pages of the items that have one: what the split decisions depend on. */
  ghost function PagesOf(items: seq<PageItem>): set<PdfPage> {
    set i | 0 <= i < |items| && items[i].ctx.Some? && items[i].ctx.value.page != null :: items[i].ctx.value.page
  }

  /** The angles of the items' pages, taken once before the loop of `split` starts. */
  ghost function Angles(items: seq<PageItem>): (r: seq<Option<int>>)
    reads PagesOf(items)
    ensures |r| == |items|
    ensures forall k :: 0 <= k < |items| ==> r[k] == AngleOf(items[k])
  {
    if items == [] then []
    else
      var n := |items| - 1;
      assert PagesOf(items[..n]) <= PagesOf(items) by {
        forall p | p in PagesOf(items[..n]) ensures p in PagesOf(items) {
          var i :| 0 <= i < n && items[..n][i].ctx.Some? && items[..n][i].ctx.value.page == p;
          assert items[i] == items[..n][i];
        }
      }
      assert items[n].ctx.Some? && items[n].ctx.value.page != null ==> items[n].ctx.value.page in PagesOf(items);
      var before := Angles(items[..n]);
      assert forall k :: 0 <= k < n ==> items[..n][k] == items[k];
      before + [AngleOf(items[n])]
  }

  /** The decisions `split` takes for the first `n` items in turn, their pages rotated by
      `angles`, starting with a container of `pageCount` pages, which grows by two with
      every split. */
  function DecisionsAt(items: seq<PageItem>, angles: seq<Option<int>>, n: nat, direction: Direction, pageCount: nat): (r: seq<bool>)
    requires n <= |items| == |angles|
    ensures |r| == n
  {
    if n == 0 then []
    else
      var before := DecisionsAt(items, angles, n - 1, direction, pageCount);
      before + [SplitsAt(items[n - 1], angles[n - 1], direction, pageCount + 2 * CountTrue(before))]
  }

  /** The decisions `split` takes for `items` as their pages stand when it starts. */
  ghost function Decisions(items: seq<PageItem>, direction: Direction, pageCount: nat): (r: seq<bool>)
    reads PagesOf(items)
    ensures |r| == |items|
  {
    DecisionsAt(items, Angles(items), |items|, direction, pageCount)
  }

  /** The number of splits (true entries). */
  function CountTrue(b: seq<bool>): (n: nat)
    ensures n <= |b|
  {
    if b == [] then 0 else CountTrue(b[..|b| - 1]) + (if b[|b| - 1] then 1 else 0)
  }

  /** The items that were split, in order. */
  function Chosen<T>(items: seq<T>, decided: seq<bool>): (r: seq<T>)
    requires |decided| == |items|
    ensures |r| == CountTrue(decided)
  {
    if items == [] then []
    else
      var n := |items| - 1;
      Chosen(items[..n], decided[..n]) + (if decided[n] then [items[n]] else [])
  }

  /** One more decision picks the next value or not. */
  lemma ChosenStep<T>(values: seq<T>, decided: seq<bool>, i: nat, split: bool)
    requires i < |values| && |decided| == i
    ensures Chosen(values[..i + 1], decided + [split]) == Chosen(values[..i], decided) + (if split then [values[i]] else [])
  {
    assert values[..i + 1][..i] == values[..i] && (decided + [split])[..i] == decided;
  }

  /** The size `split` gives both halves of `page`, rotated by `angle`: half the width
      for a horizontal split, half the height for a vertical one. */
  function HalfSize(direction: Direction, angle: int, page: PdfPage): (real, real) {
    if IsHorizontal(direction, angle) then (page.width / 2.0, page.height)
    else (page.width, page.height / 2.0)
  }

  /** One split step: the item's slot (found by `indexOf`) is replaced by the two nodes. */
  function SplitStep(d: seq<PageItem>, item: PageItem, nodes: seq<PageItem>): seq<PageItem> {
    Splice(d, IndexOf(d, item), 1, nodes)
  }

  /** The list after the split steps, given which items were split (`decided`) and the
      nodes made for them, two per split, in list order. */
  function ApplySplits(d: seq<PageItem>, items: seq<PageItem>, decided: seq<bool>, made: seq<PageItem>): seq<PageItem>
    requires |decided| == |items| && |made| == 2 * CountTrue(decided)
    decreases |items|
  {
    if items == [] then d
    else
      var n := |items| - 1;
      var before := if decided[n] then made[..|made| - 2] else made;
      var prev := ApplySplits(d, items[..n], decided[..n], before);
      if decided[n] then SplitStep(prev, items[n], made[|made| - 2..]) else prev
  }

  /** How much the split steps lengthen the list: one item per split, since each split's
      two nodes take the place of one item (of the last one when the item is no longer in
      the list), except that the first split into an empty list inserts both nodes. */
  lemma {:induction false} SplitsLengthen(d: seq<PageItem>, items: seq<PageItem>, decided: seq<bool>, made: seq<PageItem>)
    requires |decided| == |items| && |made| == 2 * CountTrue(decided)
    ensures |ApplySplits(d, items, decided, made)| == |d| + CountTrue(decided) + (if d == [] && CountTrue(decided) > 0 then 1 else 0)
    decreases |items|
  {
    if items != [] {
      var n := |items| - 1;
      var before := if decided[n] then made[..|made| - 2] else made;
      SplitsLengthen(d, items[..n], decided[..n], before);
    }
  }

  /** A split item's slot is replaced by its two nodes, so the list grows by one. */
  lemma SplitReplacesSlot(d: seq<PageItem>, item: PageItem, a: PageItem, b: PageItem)
    requires item in d
    ensures var i := IndexOf(d, item);
      SplitStep(d, item, [a, b]) == d[..i] + [a, b] + d[i + 1..]
      && |SplitStep(d, item, [a, b])| == |d| + 1
  {
    SpliceInRange(d, IndexOf(d, item), 1, [a, b]);
  }

  /** An item that is not in the list is "found" at -1, and `splice(-1, 1, …)` then
      replaces the last item of the list. */
  lemma SplitOfAbsentItemReplacesLast(d: seq<PageItem>, item: PageItem, a: PageItem, b: PageItem)
    requires item !in d && d != []
    ensures SplitStep(d, item, [a, b]) == d[..|d| - 1] + [a, b]
  {
    SpliceInRange(d, |d| - 1, 1, [a, b]);
  }

  /** What one split leaves behind for `item`, whose page was rotated by `angle`: two
      nodes with its label, `#A` and `#B`, bound to the two new pages at `base` and
      `base + 1` of the container (the left half first; a horizontal split lists the left
      node first, a vertical one the right node), both pages of the half size and with the
      rotation of the page that was copied. */
  ghost predicate SplitPair(direction: Direction, item: PageItem, angle: int, a: PageItem, b: PageItem, pages: seq<PdfPage>, base: nat)
    reads item, a, b, pages
  {
    match item.ctx
    case None => false
    case Some(context) =>
      && context.page != null
      && context.pageIndex < base && base + 1 < |pages|
      && var horizontal := IsHorizontal(direction, angle);
         var left, right := base, base + 1;
         var first, second := if horizontal then left else right, if horizontal then right else left;
         && a.labelText == item.labelText && b.labelText == item.labelText
         && a.description == Some("#A") && b.description == Some("#B")
         && a.ctx == Some(PageContext(pages[first], first))
         && b.ctx == Some(PageContext(pages[second], second))
         && (pages[left].width, pages[left].height) == HalfSize(direction, angle, context.page)
         && (pages[right].width, pages[right].height) == HalfSize(direction, angle, context.page)
         && pages[left].angle == pages[context.pageIndex].angle
         && pages[right].angle == pages[context.pageIndex].angle
  }

  /** Pages added to the container later do not disturb an earlier pair. */
  lemma SplitPairExtend(direction: Direction, item: PageItem, angle: int, a: PageItem, b: PageItem, p: seq<PdfPage>, q: seq<PdfPage>, base: nat)
    requires SplitPair(direction, item, angle, a, b, p, base)
    requires |p| <= |q| && q[..|p|] == p
    ensures SplitPair(direction, item, angle, a, b, q, base)
  {
    assert q[base] == p[base] && q[base + 1] == p[base + 1];
    assert q[item.ctx.value.pageIndex] == p[item.ctx.value.pageIndex];
  }

  /** The pairs the loop of `split` leaves behind: the `m`-th item split, `chosen[m]`,
      whose page was rotated by `angles[m]`, has the nodes `made[2m]` and `made[2m + 1]`
      and the two new pages at `base + 2m` and `base + 2m + 1`. */
  ghost predicate SplitPairs(direction: Direction, chosen: seq<PageItem>, angles: seq<Option<int>>,
                             made: seq<PageItem>, pages: seq<PdfPage>, base: nat)
    reads chosen, made, pages
  {
    && |angles| == |chosen| && |made| == 2 * |chosen|
    && forall m :: 0 <= m < |chosen| ==>
         angles[m].Some? && SplitPair(direction, chosen[m], angles[m].value, made[2 * m], made[2 * m + 1], pages, base + 2 * m)
  }

  /** One pass of the loop of `split`: the pairs so far survive the pages it adds, and a
      split adds its own pair. */
  lemma SplitPairsNext(direction: Direction, chosen: seq<PageItem>, angles: seq<Option<int>>,
                       made: seq<PageItem>, pages: seq<PdfPage>, halves: seq<PdfPage>, base: nat,
                       item: PageItem, angle: Option<int>, split: bool, nodes: seq<PageItem>)
    requires SplitPairs(direction, chosen, angles, made, pages, base)
    requires |pages| == base + |made|
    requires !split ==> nodes == []
    requires split ==> |nodes| == 2 && angle.Some? && SplitPair(direction, item, angle.value, nodes[0], nodes[1], pages + halves, |pages|)
    ensures SplitPairs(direction, chosen + (if split then [item] else []), angles + (if split then [angle] else []),
                       made + nodes, pages + halves, base)
  {
    var q := pages + halves;
    assert q[..|pages|] == pages;
    var c, a, n := chosen + (if split then [item] else []), angles + (if split then [angle] else []), made + nodes;
    forall m | 0 <= m < |c|
      ensures a[m].Some? && SplitPair(direction, c[m], a[m].value, n[2 * m], n[2 * m + 1], q, base + 2 * m)
    {
      if m < |chosen| {
        assert c[m] == chosen[m] && a[m] == angles[m] && n[2 * m] == made[2 * m] && n[2 * m + 1] == made[2 * m + 1];
        SplitPairExtend(direction, chosen[m], angles[m].value, made[2 * m], made[2 * m + 1], pages, q, base + 2 * m);
      } else {
        assert c[m] == item && a[m] == angle && n[2 * m] == nodes[0] && n[2 * m + 1] == nodes[1];
      }
    }
  }

  /** The nodes come in pairs, `#A` then `#B`, each pair labelled like the item it was
      made from. */
  ghost predicate NodePattern(made: seq<PageItem>, chosen: seq<PageItem>)
    reads made, chosen
  {
    && |made| == 2 * |chosen|
    && forall m :: 0 <= m < |chosen| ==>
      && made[2 * m].description == Some("#A") && made[2 * m + 1].description == Some("#B")
      && made[2 * m].labelText == chosen[m].labelText && made[2 * m + 1].labelText == chosen[m].labelText
  }

  /** The pairs left behind follow the pattern. */
  lemma PairsFollowPattern(direction: Direction, chosen: seq<PageItem>, angles: seq<Option<int>>,
                           made: seq<PageItem>, pages: seq<PdfPage>, base: nat)
    requires SplitPairs(direction, chosen, angles, made, pages, base)
    ensures NodePattern(made, chosen)
  {
    forall m | 0 <= m < |chosen|
      ensures made[2 * m].description == Some("#A") && made[2 * m + 1].description == Some("#B")
      ensures made[2 * m].labelText == chosen[m].labelText && made[2 * m + 1].labelText == chosen[m].labelText
    {
      assert SplitPair(direction, chosen[m], angles[m].value, made[2 * m], made[2 * m + 1], pages, base + 2 * m);
    }
  }

  /** After the items `done`, with the decisions `decided`: `chosen` are the items split,
      `made` the nodes made for them, and `d` the list the steps have produced from `d0`. */
  predicate SplitProgress(d0: seq<PageItem>, done: seq<PageItem>, decided: seq<bool>, chosen: seq<PageItem>, made: seq<PageItem>, d: seq<PageItem>) {
    && |decided| == |done|
    && chosen == Chosen(done, decided)
    && |made| == 2 * CountTrue(decided)
    && d == ApplySplits(d0, done, decided, made)
  }

  /** One more decision extends the chosen items and the split steps by that item. */
  lemma SplitProgressStep(d0: seq<PageItem>, done: seq<PageItem>, decided: seq<bool>, chosen: seq<PageItem>, made: seq<PageItem>, d: seq<PageItem>,
                          item: PageItem, split: bool, nodes: seq<PageItem>)
    requires SplitProgress(d0, done, decided, chosen, made, d)
    requires |nodes| == (if split then 2 else 0)
    ensures SplitProgress(d0, done + [item], decided + [split], chosen + (if split then [item] else []), made + nodes,
                          if split then SplitStep(d, item, nodes) else d)
  {
    assert (done + [item])[..|done|] == done;
    assert (decided + [split])[..|decided|] == decided;
    if split {
      assert (made + nodes)[..|made + nodes| - 2] == made;
      assert (made + nodes)[|made + nodes| - 2..] == nodes;
    } else {
      assert made + nodes == made;
    }
  }

  // ---------------------------------------------------------------------------------
  // combine: the description and the place of the new item.

  /** How JavaScript turns a description into text for `+`: `undefined` prints as such. */
  function DescriptionText(d: Option<string>): string {
    if d.Some? then d.value else "undefined"
  }

  /** `left.description + " " + right.description`. */
  function CombinedDescription(left: Option<string>, right: Option<string>): (r: string)
    ensures left.Some? && right.Some? ==> r == left.value + " " + right.value
    ensures left.Some? && right.None? ==> r == left.value + " undefined"
    ensures left.None? && right.Some? ==> r == "undefined " + right.value
    ensures left.None? && right.None? ==> r == "undefined undefined"
    ensures |r| == |DescriptionText(left)| + 1 + |DescriptionText(right)|
  {
    DescriptionText(left) + " " + DescriptionText(right)
  }

  /** The list after `combine` inserted `n` at `left`'s index and removed both halves. */
  function CombineResult(data: seq<PageItem>, left: PageItem, right: PageItem, n: PageItem): seq<PageItem> {
    Without(Splice(data, IndexOf(data, left), 0, [n]), [left, right])
  }

  /** When `left` is in the list, the new item takes its place among the items that stay. */
  lemma CombineTakesLeftsPlace(data: seq<PageItem>, left: PageItem, right: PageItem, n: PageItem)
    requires left in data && n != left && n != right
    ensures var i := IndexOf(data, left);
      CombineResult(data, left, right, n) == Without(data[..i], [left, right]) + [n] + Without(data[i + 1..], [left, right])
  {
    var i := IndexOf(data, left);
    var gone := [left, right];
    var a, b := data[..i], data[i + 1..];
    SpliceInRange(data, i, 0, [n]);
    assert data[i..] == [left] + b;
    var spliced := Splice(data, i, 0, [n]);
    assert spliced == (a + [n]) + ([left] + b);
    WithoutConcat(a + [n], [left] + b, gone);
    WithoutConcat(a, [n], gone);
    WithoutConcat([left], b, gone);
    assert Without([n], gone) == [n];
    assert Without([left], gone) == [];
  }

  /** When `left` is not in the list, `indexOf` gives -1 and the new item goes in before the
      last item of the list. */
  lemma CombineOfAbsentLeft(data: seq<PageItem>, left: PageItem, right: PageItem, n: PageItem)
    requires left !in data && data != []
    ensures Splice(data, IndexOf(data, left), 0, [n]) == data[..|data| - 1] + [n] + [data[|data| - 1]]
  {
    SpliceInRange(data, |data| - 1, 0, [n]);
    assert data[|data| - 1..] == [data[|data| - 1]];
  }

  /** The size `combine` gives the new page, from the size of `left`'s page: twice the
      width side by side ("h"), twice the height one above the other ("v"). Unlike `split`,
      `combine` does not look at the rotation. */
  function CombinedSize(direction: Direction, size: (real, real)): (real, real) {
    if direction == Horizontal then (size.0 * 2.0, size.1) else (size.0, size.1 * 2.0)
  }

  /** The other direction. */
  function Flip(direction: Direction): Direction {
    if direction == Horizontal then Vertical else Horizontal
  }

  /** Combining the two halves of a split gives back the size of the page that was split,
      in the direction it was split in when the rotation did not flip the orientation, and
      in the other direction when it did. */
  lemma CombineUndoesSplitSize(direction: Direction, angle: int, page: PdfPage)
    ensures var half := HalfSize(direction, angle, page);
      var along := if FlipsOrientation(angle) then Flip(direction) else direction;
      && CombinedSize(along, half) == (page.width, page.height)
      && (CombinedSize(Flip(along), half) != (page.width, page.height) <==> page.width != 0.0 || page.height != 0.0)
  {
  }

  /** The fault of `combine`: the embedding throws when either half has no page context
      or names no page of the container, which by then holds `pageCount` pages and the
      blank page added first. */
  predicate CombineFails(left: PageItem, right: PageItem, pageCount: nat) {
    || left.ctx.None?
    || right.ctx.None?
    || left.ctx.value.pageIndex > pageCount
    || right.ctx.value.pageIndex > pageCount
  }

  /** The size of the embedded page at `index` of the container after the blank page was
      added to its `pages`. */
  function EmbeddedSize(pages: seq<PdfPage>, index: nat): (real, real)
    requires index <= |pages|
  {
    if index < |pages| then (pages[index].width, pages[index].height) else (BlankWidth, BlankHeight)
  }

  // ---------------------------------------------------------------------------------
  // sort: the library sort applied to (label, item) pairs.

  function KeyedByLabel(s: seq<PageItem>): (r: seq<Keyed<PageItem>>)
    reads s
    ensures |r| == |s|
    ensures forall i :: 0 <= i < |s| ==> r[i] == Keyed(s[i].labelText, s[i])
  {
    if s == [] then [] else [Keyed(s[0].labelText, s[0])] + KeyedByLabel(s[1..])
  }

  function ItemsOf<T>(s: seq<Keyed<T>>): (r: seq<T>)
    ensures |r| == |s|
    ensures forall i :: 0 <= i < |s| ==> r[i] == s[i].item
  {
    if s == [] then [] else [s[0].item] + ItemsOf(s[1..])
  }

  lemma ItemsOfCons<T>(h: Keyed<T>, t: seq<Keyed<T>>)
    ensures ItemsOf([h] + t) == [h.item] + ItemsOf(t)
  {
  }

  /** The list after `this.data.sort(comparator)`. */
  function SortedByLabel(s: seq<PageItem>, ascending: bool): seq<PageItem>
    reads s
  {
    ItemsOf(SortKeyed(KeyedByLabel(s), ascending))
  }

  /** The items of `s` whose label is `text`, in order. */
  function WithLabel(s: seq<PageItem>, text: string): (r: seq<PageItem>)
    reads s
    ensures forall i :: 0 <= i < |r| ==> r[i].labelText == text
  {
    if s == [] then []
    else if s[0].labelText == text then [s[0]] + WithLabel(s[1..], text)
    else WithLabel(s[1..], text)
  }

  lemma {:induction false} WithLabelOfKeyed(k: seq<Keyed<PageItem>>, text: string)
    requires KeysAreLabels(k)
    ensures WithLabel(ItemsOf(k), text) == ItemsOf(WithKey(k, text))
  {
    if k != [] {
      WithLabelOfKeyed(k[1..], text);
      assert ItemsOf(k)[1..] == ItemsOf(k[1..]);
    }
  }

  lemma {:induction false} ItemsOfConcat<T>(a: seq<Keyed<T>>, b: seq<Keyed<T>>)
    ensures ItemsOf(a + b) == ItemsOf(a) + ItemsOf(b)
  {
  }

  lemma ItemsOfInsertion<T>(a: seq<Keyed<T>>, x: Keyed<T>, b: seq<Keyed<T>>)
    ensures ItemsOf(a + [x] + b) == ItemsOf(a) + [x.item] + ItemsOf(b)
  {
    ItemsOfConcat(a + [x], b);
    ItemsOfConcat(a, [x]);
    assert ItemsOf([x]) == [x.item];
  }

  lemma InsertKeepsItems<T>(x: Keyed<T>, s: seq<Keyed<T>>, ascending: bool)
    ensures multiset(ItemsOf(Insert(x, s, ascending))) == multiset(ItemsOf(s)) + multiset{x.item}
  {
    var front, back := InsertSplit(x, s, ascending);
    ItemsOfInsertion(front, x, back);
    ItemsOfConcat(front, back);
    MultisetInsert(ItemsOf(front), x.item, ItemsOf(back));
  }

  lemma {:induction false} SortKeepsItems<T>(s: seq<Keyed<T>>, ascending: bool)
    ensures multiset(ItemsOf(SortKeyed(s, ascending))) == multiset(ItemsOf(s))
  {
    if s != [] {
      SortKeepsItems(s[1..], ascending);
      InsertKeepsItems(s[0], SortKeyed(s[1..], ascending), ascending);
      assert ItemsOf(s) == [s[0].item] + ItemsOf(s[1..]);
    }
  }

  /** Every pair's key is its item's label. */
  ghost predicate KeysAreLabels(k: seq<Keyed<PageItem>>)
    reads set i | 0 <= i < |k| :: k[i].item
  {
    forall i :: 0 <= i < |k| ==> k[i].key == k[i].item.labelText
  }

  /** Sorting keeps each item's label as its key. */
  lemma SortedKeysAreLabels(s: seq<PageItem>, ascending: bool)
    ensures KeysAreLabels(KeyedByLabel(s))
    ensures KeysAreLabels(SortKeyed(KeyedByLabel(s), ascending))
  {
    var k := KeyedByLabel(s);
    var sorted := SortKeyed(k, ascending);
    forall i | 0 <= i < |sorted| ensures sorted[i].key == sorted[i].item.labelText {
      SortKeyedPermutes(k, ascending);
      assert sorted[i] in multiset(k);
    }
  }

  /** `sort` leaves a permutation of the list. */
  lemma SortByLabelPermutes(s: seq<PageItem>, ascending: bool)
    ensures multiset(SortedByLabel(s, ascending)) == multiset(s)
  {
    var k := KeyedByLabel(s);
    assert ItemsOf(k) == s;
    SortKeepsItems(k, ascending);
  }

  /** `sort(true)` leaves the labels non-increasing, `sort(false)` non-decreasing. */
  lemma SortByLabelOrders(s: seq<PageItem>, ascending: bool)
    ensures var r := SortedByLabel(s, ascending);
      forall i, j :: 0 <= i < j < |r| ==>
        if ascending then !LexLess(r[i].labelText, r[j].labelText) else !LexLess(r[j].labelText, r[i].labelText)
  {
    var k := KeyedByLabel(s);
    var sorted := SortKeyed(k, ascending);
    var r := ItemsOf(sorted);
    SortedKeysAreLabels(s, ascending);
    forall i, j | 0 <= i < j < |r|
      ensures if ascending then !LexLess(r[i].labelText, r[j].labelText) else !LexLess(r[j].labelText, r[i].labelText)
    {
      SortDirection(k, ascending, i, j);
      assert sorted[i].key == r[i].labelText && sorted[j].key == r[j].labelText;
    }
  }

  /** `sort` is stable: the items sharing a label keep their relative order. */
  lemma SortByLabelStable(s: seq<PageItem>, ascending: bool, text: string)
    ensures WithLabel(SortedByLabel(s, ascending), text) == WithLabel(s, text)
  {
    var k := KeyedByLabel(s);
    var sorted := SortKeyed(k, ascending);
    assert SortedByLabel(s, ascending) == ItemsOf(sorted);
    SortedKeysAreLabels(s, ascending);
    assert ItemsOf(k) == s;
    WithLabelOfKeyed(sorted, text);
    assert WithLabel(ItemsOf(sorted), text) == ItemsOf(WithKey(sorted, text));
    WithLabelOfKeyed(k, text);
    SortKeyedStable(k, ascending, text);
  }

  /** The description `"#" + n`. */
  function Numbered(n: nat): string {
    "#" + NatToString(n)
  }

  /** No later position before `end` holds the same item as position `j`. */
  ghost predicate LastUpTo(items: seq<PageItem>, j: nat, end: nat) {
    j < |items| && forall m :: j < m < end && m < |items| ==> items[m] != items[j]
  }

  /** The `forEach` loop of `rename`. */
  method Relabel(text: string, items: seq<PageItem>)
    modifies items
    ensures forall j :: 0 <= j < |items| ==> items[j].labelText == text
    ensures forall j :: 0 <= j < |items| && items[j] !in items[j + 1..] ==>
      items[j].description == Some(Numbered(j + 1))
  {
    var pageCounter := 0;
    while pageCounter < |items|
      invariant 0 <= pageCounter <= |items|
      invariant forall j :: 0 <= j < pageCounter ==> items[j].labelText == text
      invariant forall j :: 0 <= j < pageCounter && LastUpTo(items, j, pageCounter) ==>
        items[j].description == Some(Numbered(j + 1))
    {
      label Head:
      var item := items[pageCounter];
      item.labelText := text;
      pageCounter := pageCounter + 1;
      item.description := Some(Numbered(pageCounter));
      forall j | 0 <= j < pageCounter ensures items[j].labelText == text {
        if j < pageCounter - 1 && items[j] != item {
          assert items[j].labelText == old@Head(items[j].labelText);
        }
      }
      forall j | 0 <= j < pageCounter && LastUpTo(items, j, pageCounter)
        ensures items[j].description == Some(Numbered(j + 1))
      {
        if j < pageCounter - 1 {
          assert items[j] != item;
          assert LastUpTo(items, j, pageCounter - 1);
          assert items[j].description == old@Head(items[j].description);
        }
      }
    }
    LastOccurrences(items);
  }

  /** An item that does not occur again later is at its last place. */
  lemma LastOccurrences(items: seq<PageItem>)
    ensures forall j :: 0 <= j < |items| && items[j] !in items[j + 1..] ==> LastUpTo(items, j, |items|)
  {
    forall j, m | 0 <= j < m < |items| && items[j] !in items[j + 1..] ensures items[m] != items[j] {
      assert items[m] == items[j + 1..][m - j - 1];
    }
  }

  // ---------------------------------------------------------------------------------
  // The provider.

  /** `refreshModel` reads `x.data!.pageIndex` of every item: it throws unless every item
      has a page context. */
  predicate Reloadable(data: seq<PageItem>) {
    forall i :: 0 <= i < |data| ==> data[i].ctx.Some?
  }

  /** What a reload keeps of each item: its label, its description and its page index
      (-1 for an item without a page context). */
  ghost function Listing(d: seq<PageItem>): (r: seq<(string, Option<string>, int)>)
    reads d
    ensures |r| == |d|
    ensures forall i :: 0 <= i < |d| ==>
      r[i] == (d[i].labelText, d[i].description, if d[i].ctx.Some? then d[i].ctx.value.pageIndex else -1)
  {
    seq(|d|, i requires 0 <= i < |d| reads d =>
      (d[i].labelText, d[i].description, if d[i].ctx.Some? then d[i].ctx.value.pageIndex else -1))
  }

  /** The width and height of each page. */
  function Sizes(ps: seq<PdfPage>): (r: seq<(real, real)>)
    ensures |r| == |ps| && forall k :: 0 <= k < |ps| ==> r[k] == (ps[k].width, ps[k].height)
  {
    seq(|ps|, k requires 0 <= k < |ps| => (ps[k].width, ps[k].height))
  }

  /** The rotation of each page. */
  ghost function Rotations(ps: seq<PdfPage>): (r: seq<int>)
    reads ps
    ensures |r| == |ps| && forall k :: 0 <= k < |ps| ==> r[k] == ps[k].angle
  {
    seq(|ps|, k requires 0 <= k < |ps| reads ps => ps[k].angle)
  }

  /** `pdfFrom` can copy the pages of these items: every item has a page context
      (`item.data!` throws otherwise) whose page index is a page of the container
      (`copyPages` throws otherwise). */
  predicate Exportable(items: seq<PageItem>, pageCount: nat) {
    forall i :: 0 <= i < |items| ==> items[i].ctx.Some? && items[i].ctx.value.pageIndex < pageCount
  }

  /** `getPageIndices()`: the indices of all `n` pages of a document, in order. */
  function PageIndices(n: nat): (r: seq<nat>)
    ensures |r| == n && forall k :: 0 <= k < n ==> r[k] == k
  {
    seq(n, k => k)
  }

  /** The library's `copyPages(source, indices)`: one new page object per index, in
      order, of the size and rotation of the source page at that index. (An index past
      the end makes the library throw; the callers rule that out first.) */
  method CopyPages(source: seq<PdfPage>, indices: seq<nat>) returns (copies: seq<PdfPage>)
    requires forall k :: 0 <= k < |indices| ==> indices[k] < |source|
    ensures |copies| == |indices|
    ensures forall k :: 0 <= k < |copies| ==> fresh(copies[k])
    ensures forall k :: 0 <= k < |copies| ==>
      var original := source[indices[k]];
      copies[k].width == original.width && copies[k].height == original.height && copies[k].angle == original.angle
  {
    copies := [];
    while |copies| < |indices|
      invariant |copies| <= |indices|
      invariant forall k :: 0 <= k < |copies| ==> fresh(copies[k])
      invariant forall k :: 0 <= k < |copies| ==>
        var original := source[indices[k]];
        copies[k].width == original.width && copies[k].height == original.height && copies[k].angle == original.angle
    {
      var original := source[indices[|copies|]];
      var copy := new PdfPage(original.width, original.height, original.angle);
      copies := copies + [copy];
    }
  }

  /** The loop of `addPdfFile`: one new item per copied page, in order, labelled after the
      file, described `#1`, `#2`, ... and bound to the page at its index in the container,
      which holds `base` pages before the copies are added. */
  method NewItems(fileName: string, copies: seq<PdfPage>, base: nat) returns (added: seq<PageItem>)
    ensures |added| == |copies|
    ensures forall k :: 0 <= k < |added| ==>
      && fresh(added[k])
      && added[k].labelText == FileLabel(fileName)
      && added[k].description == Some(Numbered(k + 1))
      && added[k].ctx == Some(PageContext(copies[k], base + k))
  {
    added := [];
    while |added| < |copies|
      invariant |added| <= |copies|
      invariant forall k :: 0 <= k < |added| ==>
        && fresh(added[k])
        && added[k].labelText == FileLabel(fileName)
        && added[k].description == Some(Numbered(k + 1))
        && added[k].ctx == Some(PageContext(copies[k], base + k))
    {
      var index := |added|;
      var item := new PageItem(FileLabel(fileName), Some(Numbered(index + 1)), Some(PageContext(copies[index], base + index)));
      added := added + [item];
    }
  }

  /** `this.data.map(...)` in `refreshModel`: a new item per item, with the same label,
      description and page index, bound to the copy at that index (`undefined`, here null,
      for an index past the end). An item without a page context makes the source throw:
      `ok` is false and nothing is made. */
  method RebindItems(data: seq<PageItem>, copies: seq<PdfPage>) returns (ok: bool, newData: seq<PageItem>)
    ensures ok <==> Reloadable(data)
    ensures ok ==> |newData| == |data| && forall i :: 0 <= i < |data| ==>
      && fresh(newData[i])
      && newData[i].labelText == data[i].labelText
      && newData[i].description == data[i].description
      && newData[i].ctx.Some?
      && newData[i].ctx.value.pageIndex == data[i].ctx.value.pageIndex
      && newData[i].ctx.value.page == (if data[i].ctx.value.pageIndex < |copies| then copies[data[i].ctx.value.pageIndex] else null)
  {
    newData := [];
    var i := 0;
    while i < |data|
      invariant 0 <= i <= |data| && |newData| == i
      invariant forall m :: 0 <= m < i ==> data[m].ctx.Some?
      invariant forall m :: 0 <= m < i ==>
        && fresh(newData[m])
        && newData[m].labelText == data[m].labelText
        && newData[m].description == data[m].description
        && newData[m].ctx.Some?
        && newData[m].ctx.value.pageIndex == data[m].ctx.value.pageIndex
        && newData[m].ctx.value.page == (if data[m].ctx.value.pageIndex < |copies| then copies[data[m].ctx.value.pageIndex] else null)
    {
      var x := data[i];
      if x.ctx.None? {
        // `x.data!.pageIndex` throws
        return false, newData;
      }
      var pageIndex := x.ctx.value.pageIndex;
      var page := if pageIndex < |copies| then copies[pageIndex] else null;
      var item := new PageItem(x.labelText, x.description, Some(PageContext(page, pageIndex)));
      newData := newData + [item];
      i := i + 1;
    }
    ok := true;
  }

  /** `PageTreeProvider`: the tree's list of items (`data`), the pages of the in-memory
      PDF container (`pages`, in the container's order) and the placeholder item. */
  class PageTreeProvider {
    var data: seq<PageItem>
    var pages: seq<PdfPage>
    const placeholder: PageItem

    /** `new PageTreeProvider(data)` followed by `initialize()`, which creates the empty
        container. */
    constructor (initial: seq<PageItem>)
      ensures data == initial && pages == []
      ensures fresh(placeholder) && placeholder.labelText == PlaceholderLabel
      ensures placeholder.description == None && placeholder.ctx == None
    {
      var p := new PageItem(PlaceholderLabel, None, None);
      placeholder := p;
      data := initial;
      pages := [];
    }

    /** `getChildren`: the whole list under the root, nothing under an item. */
    function GetChildren(element: PageItem?): (r: seq<PageItem>)
      reads this
      ensures element != null ==> r == []
      ensures element == null ==> r == data
    {
      if element != null then [] else data
    }

    /** `refreshTree(data?)`: a given list replaces the current one (even an empty one,
        which is truthy); then the undefined entries and the placeholder are filtered out
        and the placeholder is added back when nothing remains. */
    method RefreshTree(replacement: Option<seq<PageItem?>>)
      modifies this`data
      ensures data == Refresh(if replacement.Some? then replacement.value else old(data), placeholder)
      ensures Displayable(data, placeholder)
    {
      var current: seq<PageItem?> := if replacement.Some? then replacement.value else data;
      data := Refresh(current, placeholder);
    }

    /** `moveTo(items, target)` (no refresh of its own). */
    method MoveTo(items: seq<PageItem>, target: PageItem?)
      modifies this`data
      ensures data == MoveResult(old(data), items, target)
    {
      var moveToTop := target != null && IndexOf(data, target) == 0;
      data := Without(data, items);
      var targetPosition := if moveToTop then 0 else if target != null then IndexOf(data, target) + 1 else |data| - 1;
      data := Splice(data, targetPosition, 0, items);
    }

    /** `handleDrop` for items dragged within the tree: move them, then refresh. */
    method HandleDropItems(items: seq<PageItem>, target: PageItem?)
      modifies this`data
      ensures data == Refresh(MoveResult(old(data), items, target), placeholder)
    {
      MoveTo(items, target);
      RefreshTree(None);
    }

    /** `rename(label, items)`: every item gets the label and the descriptions `#1`, `#2`,
        ... in the order given (an item listed twice keeps the number of its last place);
        then a refresh. */
    method Rename(text: string, items: seq<PageItem>)
      modifies items, this`data
      ensures forall j :: 0 <= j < |items| ==> items[j].labelText == text
      ensures forall j :: 0 <= j < |items| && items[j] !in items[j + 1..] ==>
        items[j].description == Some(Numbered(j + 1))
      ensures data == Refresh(old(data), placeholder)
    {
      Relabel(text, items);
      RefreshTree(None);
    }

    /** `remove(items)`: the items not listed, in their order, then the placeholder rule. */
    method Remove(items: seq<PageItem>)
      modifies this`data
      ensures data == Refresh(Without(old(data), items), placeholder)
    {
      RefreshTree(Some(Without(data, items)));
    }

    /** `clear()`: an empty list and a new empty container. */
    method Clear()
      modifies this`data, this`pages
      ensures data == [placeholder] && pages == []
    {
      data := [];
      pages := [];
      RefreshTree(None);
    }

    /** `sort(ascending)`: the library's stable sort with the label comparator, then a
        refresh. On a list that is not just the placeholder the refresh changes nothing. */
    method Sort(ascending: bool)
      modifies this`data
      ensures data == Refresh(old(SortedByLabel(data, ascending)), placeholder)
      ensures old(data) != [] && placeholder !in old(data) ==> data == old(SortedByLabel(data, ascending))
    {
      var sorted := SortedByLabel(data, ascending);
      SortByLabelPermutes(data, ascending);
      assert placeholder !in data ==> placeholder !in multiset(sorted);
      if data != [] && placeholder !in data {
        assert |sorted| == |data|;
        RealItemsOfReal(sorted, placeholder);
      }
      data := sorted;
      RefreshTree(None);
    }
  
    /** The list and container part of `addPdfFile(fileName, target)`: each page of the
        loaded document (`source`) is copied into the container and gets an item labelled
        from the file name, with descriptions `#1`, `#2`, ...; the new items are appended
        and, when there is a drop target, moved to it. There is no refresh here. */
    method AddPdfFile(fileName: string, source: seq<PdfPage>, target: PageItem?) returns (ghost added: seq<PageItem>, ghost copies: seq<PdfPage>)
      modifies this`data, this`pages
      ensures |added| == |copies| == |source|
      ensures pages == old(pages) + copies
      ensures forall k :: 0 <= k < |copies| ==> fresh(copies[k])
      ensures forall k :: 0 <= k < |copies| ==>
        copies[k].width == source[k].width && copies[k].height == source[k].height && copies[k].angle == source[k].angle
      ensures forall k :: 0 <= k < |added| ==>
        && fresh(added[k])
        && added[k].labelText == FileLabel(fileName)
        && added[k].description == Some(Numbered(k + 1))
        && added[k].ctx == Some(PageContext(copies[k], |old(pages)| + k))
      ensures data == MoveResult(old(data) + added, if target != null then added else [], target)
    {
      var pageCopies := CopyPages(source, PageIndices(|source|));
      copies := pageCopies;
      var base := |pages|;
      var items := NewItems(fileName, pageCopies, base);
      added := items;
      pages := pages + pageCopies;
      data := data + items;
      var moveableItems := if target != null then items else [];
      MoveTo(moveableItems, target);
    }

    /** `refreshModel()`: the container is rebuilt from copies of its pages and every item
        is replaced by a new one with the same label, description and page index, bound to
        the copy at that index. An item without a page context (the placeholder) makes
        the source throw before anything is replaced. */
    method RefreshModel() returns (ok: bool)
      modifies this`data, this`pages
      ensures ok <==> Reloadable(old(data))
      ensures !ok ==> data == old(data) && pages == old(pages)
      ensures ok ==> |pages| == |old(pages)| && forall k :: 0 <= k < |pages| ==>
        && fresh(pages[k])
        && pages[k].width == old(pages[k].width)
        && pages[k].height == old(pages[k].height)
        && pages[k].angle == old(pages[k].angle)
      ensures Sizes(pages) == Sizes(old(pages)) && Rotations(pages) == old(Rotations(pages))
      ensures old(data) != [] ==> Listing(data) == old(Listing(data))
      ensures ok && old(data) == [] ==> data == [placeholder]
      ensures ok && old(data) != [] ==> Reloadable(data)
      ensures ok && old(data) != [] ==> |data| == |old(data)| && forall i :: 0 <= i < |data| ==>
        && fresh(data[i])
        && data[i].labelText == old(data[i].labelText)
        && data[i].description == old(data[i].description)
        && data[i].ctx.Some?
        && data[i].ctx.value.pageIndex == old(data[i].ctx.value.pageIndex)
        && data[i].ctx.value.page == (if data[i].ctx.value.pageIndex < |pages| then pages[data[i].ctx.value.pageIndex] else null)
    {
      var copies := CopyPages(pages, PageIndices(|pages|));
      var newData;
      ok, newData := RebindItems(data, copies);
      if !ok {
        return;
      }
      pages := copies;
      if newData != [] {
        assert placeholder !in newData;
        RealItemsOfReal(newData, placeholder);
      }
      RefreshTree(Some(newData));
      ok := true;
    }

    /** `pdfFrom(items, reload)`: a new document holding copies of the items' pages, in
        the items' order, then `refreshModel()` when `reload` is set. `ok` is false when
        the copy or the reload throws; nothing has changed then. */
    method PdfFrom(items: seq<PageItem>, reload: bool) returns (ok: bool, document: seq<PdfPage>)
      modifies this`data, this`pages
      ensures ok <==> Exportable(items, |old(pages)|) && (reload ==> Reloadable(old(data)))
      ensures ok ==> |document| == |items| && forall i :: 0 <= i < |items| ==>
        var original := old(pages[items[i].ctx.value.pageIndex]);
        && fresh(document[i])
        && document[i].width == original.width && document[i].height == original.height
        && document[i].angle == old(original.angle)
      ensures !ok || !reload ==> data == old(data) && pages == old(pages)
      ensures Sizes(pages) == Sizes(old(pages)) && Rotations(pages) == old(Rotations(pages))
      ensures old(data) != [] ==> Listing(data) == old(Listing(data))
      ensures ok && reload && old(data) == [] ==> data == [placeholder]
      ensures ok && reload && old(data) != [] ==> Reloadable(data)
    {
      if exists i :: 0 <= i < |items| && items[i].ctx.None? {
        // `item.data!` throws
        return false, [];
      }
      var indices := seq(|items|, i requires 0 <= i < |items| => items[i].ctx.value.pageIndex);
      if exists k :: 0 <= k < |indices| && indices[k] >= |pages| {
        // `copyPages` throws
        return false, [];
      }
      assert Exportable(items, |pages|) by {
        forall i | 0 <= i < |items| ensures items[i].ctx.value.pageIndex < |pages| {
          assert indices[i] == items[i].ctx.value.pageIndex;
        }
      }
      document := CopyPages(pages, indices);
      if reload {
        var reloaded := RefreshModel();
        if !reloaded {
          return false, [];
        }
      }
      ok := true;
    }

    /** `split(direction, pageItems)`: the loop over the items, on the list and the
        container's pages, then a refresh. The decisions are taken on the pages as they
        are (splitting does not change them), with the container growing by two pages per
        split; the refreshed list is the result of the split steps; the new nodes come in
        pairs, one pair per item split, each bound to its half page (`SplitPairs`; so the
        pairs are `#A` then `#B`, labelled like the items split, by `PairsFollowPattern`). */
    method Split(direction: Direction, pageItems: seq<PageItem>) returns (newItems: seq<PageItem>, ghost decided: seq<bool>)
      modifies this`data, this`pages
      ensures decided == old(Decisions(pageItems, direction, |pages|))
      ensures |newItems| == 2 * CountTrue(decided)
      ensures data == Refresh(ApplySplits(old(data), pageItems, decided, newItems), placeholder)
      ensures |pages| == |old(pages)| + |newItems| && pages[..|old(pages)|] == old(pages)
      ensures SplitPairs(direction, Chosen(pageItems, decided), Chosen(old(Angles(pageItems)), decided), newItems, pages, |old(pages)|)
      ensures forall x :: x in newItems ==> fresh(x)
      ensures forall p :: p in pages[|old(pages)|..] ==> fresh(p)
    {
      var d, ps;
      ghost var angles := Angles(pageItems);
      ghost var added;
      newItems, decided, d, ps, added := SplitItems(direction, pageItems, angles, data, pages);
      assert SplitPairs(direction, Chosen(pageItems, decided), Chosen(old(Angles(pageItems)), decided), newItems, ps, |old(pages)|);
      data, pages := Refresh(d, placeholder), ps;
      assert pages[|old(pages)|..] == added;
    }

    /** `combine(direction, left, right)`. The container gets a blank page first; the
        embedding of both halves then throws (and the error reaches the caller) when
        `CombineFails`. Otherwise the blank page takes the combined size, is added to the
        container a second time, and a new item labelled like `left`, with both
        descriptions, bound to the page at the last index, goes in at `left`'s index
        before both halves are removed and the tree refreshed. */
    method Combine(direction: Direction, left: PageItem, right: PageItem) returns (result: Option<PageItem>)
      modifies this`data, this`pages
      ensures result.None? <==> CombineFails(left, right, |old(pages)|)
      ensures |pages| == |old(pages)| + (if result.None? then 1 else 2) && pages[..|old(pages)|] == old(pages)
      ensures fresh(pages[|old(pages)|]) && pages[|old(pages)|].angle == 0
      ensures result.None? ==> data == old(data)
      ensures result.None? ==> (pages[|old(pages)|].width, pages[|old(pages)|].height) == (BlankWidth, BlankHeight)
      ensures result.Some? ==> pages[|old(pages)| + 1] == pages[|old(pages)|]
      ensures result.Some? ==>
        (pages[|old(pages)|].width, pages[|old(pages)|].height) == CombinedSize(direction, EmbeddedSize(old(pages), left.ctx.value.pageIndex))
      ensures result.Some? ==> fresh(result.value) && result.value.labelText == left.labelText
      ensures result.Some? ==> result.value.description == Some(CombinedDescription(left.description, right.description))
      ensures result.Some? ==> result.value.ctx == Some(PageContext(pages[|old(pages)|], |old(pages)| + 1))
      ensures result.Some? ==> data == Refresh(CombineResult(old(data), left, right, result.value), placeholder)
    {
      // The blank page only changes size, so it is made once its size is known.
      if CombineFails(left, right, |pages|) {
        var blank := new PdfPage(BlankWidth, BlankHeight, 0);
        pages := pages + [blank];
        return None;
      }
      var (width, height) := CombinedSize(direction, EmbeddedSize(pages, left.ctx.value.pageIndex));
      var page := new PdfPage(width, height, 0);
      pages := pages + [page, page];
      var newItem := new PageItem(left.labelText, Some(CombinedDescription(left.description, right.description)),
                                  Some(PageContext(page, |pages| - 1)));
      PutInPlaceOfHalves(left, right, newItem);
      result := Some(newItem);
    }

    /** The end of `combine`: `newItem` is spliced in at `left`'s index, both halves are
        removed, and the tree is refreshed once more. */
    method PutInPlaceOfHalves(left: PageItem, right: PageItem, newItem: PageItem)
      modifies this`data
      ensures data == Refresh(CombineResult(old(data), left, right, newItem), placeholder)
    {
      data := Splice(data, IndexOf(data, left), 0, [newItem]);
      Remove([left, right]);
      RefreshIdempotent(CombineResult(old(data), left, right, newItem), placeholder);
      RefreshTree(None);
    }
  }

  /** The body of `split`'s loop for one item, on the list `d` and the container's pages
      `pages`. An item without a page context or page, whose index names no page of the
      container (the copy throws and the error is caught), or whose size does not fit the
      orientation is passed over. Otherwise the page is copied twice, both copies get half
      the size and are added to the container, and the item's slot (by `indexOf`) is
      replaced by the two nodes. */
  method SplitItem(direction: Direction, item: PageItem, ghost angle: Option<int>, d: seq<PageItem>, pages: seq<PdfPage>)
    returns (split: bool, nodes: seq<PageItem>, d': seq<PageItem>, pages': seq<PdfPage>, ghost halves: seq<PdfPage>)
    requires AngleOf(item) == angle
    ensures split == SplitsAt(item, angle, direction, |pages|)
    ensures pages' == pages + halves && |halves| == |nodes|
    ensures !split ==> nodes == [] && d' == d
    ensures split ==> |nodes| == 2 && fresh(nodes[0]) && fresh(nodes[1])
    ensures forall p :: p in halves ==> fresh(p)
    ensures forall x :: x in nodes ==> fresh(x)
    ensures split ==> angle.Some? && SplitPair(direction, item, angle.value, nodes[0], nodes[1], pages', |pages|)
    ensures split ==> d' == SplitStep(d, item, nodes)
  {
    split := SplitsAt(item, AngleOf(item), direction, |pages|);
    if !split {
      nodes, d', pages', halves := [], d, pages, [];
      return;
    }
    var page := item.ctx.value.page;
    var pageIndex := item.ctx.value.pageIndex;
    var horizontal := IsHorizontal(direction, page.angle);
    var insertIndex := IndexOf(d, item);
    var (width, height) := HalfSize(direction, page.angle, page);
    var rotation := pages[pageIndex].angle;
    var leftPage := new PdfPage(width, height, rotation);
    pages' := pages + [leftPage];
    var leftPageIndex := |pages'| - 1;
    var rightPage := new PdfPage(width, height, rotation);
    pages' := pages' + [rightPage];
    var rightPageIndex := |pages'| - 1;
    var leftNode := new PageItem(item.labelText, Some(if horizontal then "#A" else "#B"), Some(PageContext(leftPage, leftPageIndex)));
    var rightNode := new PageItem(item.labelText, Some(if horizontal then "#B" else "#A"), Some(PageContext(rightPage, rightPageIndex)));
    nodes := if horizontal then [leftNode, rightNode] else [rightNode, leftNode];
    d' := Splice(d, insertIndex, 1, nodes);
    halves := [leftPage, rightPage];
  }

  /** A prefix one longer is the prefix and the next element. */
  lemma SliceExtend<T>(s: seq<T>, i: nat)
    requires i < |s|
    ensures s[..i + 1] == s[..i] + [s[i]]
  {
  }

  /** The prefix as long as the sequence is the sequence. */
  lemma SliceAll<T>(s: seq<T>)
    ensures s[..|s|] == s
  {
  }

  /** Concatenation is associative. */
  lemma AppendAssociative<T>(a: seq<T>, b: seq<T>, c: seq<T>)
    ensures (a + b) + c == a + (b + c)
  {
  }

  /** One pass of the loop of `split`: `item` is split or passed over, and the record of
      the loop so far (the decisions, the items chosen, the nodes made, the list and the
      pages added) is extended accordingly. */
  method SplitNext(direction: Direction, pageItems: seq<PageItem>, ghost angles: seq<Option<int>>, n: nat,
                   d0: seq<PageItem>, ghost decided: seq<bool>, ghost chosen: seq<PageItem>, ghost chosenAngles: seq<Option<int>>, made: seq<PageItem>,
                   d: seq<PageItem>, pages0: seq<PdfPage>, ghost added: seq<PdfPage>, pages: seq<PdfPage>)
    returns (split: bool, made': seq<PageItem>, d': seq<PageItem>, ghost added': seq<PdfPage>, pages': seq<PdfPage>)
    requires n < |pageItems| == |angles|
    requires AngleOf(pageItems[n]) == angles[n]
    requires decided == DecisionsAt(pageItems, angles, n, direction, |pages0|)
    requires SplitProgress(d0, pageItems[..n], decided, chosen, made, d)
    requires pages == pages0 + added && |added| == |made|
    requires SplitPairs(direction, chosen, chosenAngles, made, pages, |pages0|)
    ensures decided + [split] == DecisionsAt(pageItems, angles, n + 1, direction, |pages0|)
    ensures SplitProgress(d0, pageItems[..n + 1], decided + [split], chosen + (if split then [pageItems[n]] else []), made', d')
    ensures SplitPairs(direction, chosen + (if split then [pageItems[n]] else []), chosenAngles + (if split then [angles[n]] else []), made', pages', |pages0|)
    ensures pages' == pages0 + added' && |added'| == |made'|
    ensures forall x :: x in made' ==> x in made || fresh(x)
    ensures forall q :: q in added' ==> q in added || fresh(q)
  {
    var item := pageItems[n];
    var nodes;
    ghost var halves;
    split, nodes, d', pages', halves := SplitItem(direction, item, angles[n], d, pages);
    SplitPairsNext(direction, chosen, chosenAngles, made, pages, halves, |pages0|, item, angles[n], split, nodes);
    SplitNextFacts(direction, pageItems, angles, n, d0, decided, chosen, made, d, pages0, added, pages, split, nodes, d', halves, pages');
    made', added' := made + nodes, added + halves;
  }

  /** What one pass of the loop of `split` does to the record of the loop, given the
      outcome of the split step. */
  lemma SplitNextFacts(direction: Direction, pageItems: seq<PageItem>, angles: seq<Option<int>>, n: nat,
                       d0: seq<PageItem>, decided: seq<bool>, chosen: seq<PageItem>, made: seq<PageItem>,
                       d: seq<PageItem>, pages0: seq<PdfPage>, added: seq<PdfPage>, pages: seq<PdfPage>,
                       split: bool, nodes: seq<PageItem>, d': seq<PageItem>, halves: seq<PdfPage>, pages': seq<PdfPage>)
    requires n < |pageItems| == |angles|
    requires decided == DecisionsAt(pageItems, angles, n, direction, |pages0|)
    requires SplitProgress(d0, pageItems[..n], decided, chosen, made, d)
    requires pages == pages0 + added && |added| == |made|
    requires split == SplitsAt(pageItems[n], angles[n], direction, |pages|)
    requires pages' == pages + halves && |halves| == |nodes|
    requires !split ==> nodes == [] && d' == d
    requires split ==> |nodes| == 2 && d' == SplitStep(d, pageItems[n], nodes)
    ensures decided + [split] == DecisionsAt(pageItems, angles, n + 1, direction, |pages0|)
    ensures SplitProgress(d0, pageItems[..n + 1], decided + [split], chosen + (if split then [pageItems[n]] else []), made + nodes, d')
    ensures pages' == pages0 + (added + halves) && |added + halves| == |made + nodes|
  {
    assert |pages| == |pages0| + 2 * CountTrue(decided);
    SliceExtend(pageItems, n);
    SplitProgressStep(d0, pageItems[..n], decided, chosen, made, d, pageItems[n], split, nodes);
    AppendAssociative(pages0, added, halves);
  }

  /** The loop of `split` on the list `d` and the container's pages `pages`: each item in
      turn is split or passed over, as `decided` records; the list is the result of the
      split steps in order; the container gains two pages per split; the nodes follow the
      `#A`/`#B` pattern. */
  method SplitItems(direction: Direction, pageItems: seq<PageItem>, ghost angles: seq<Option<int>>,
                    d: seq<PageItem>, pages: seq<PdfPage>)
    returns (newItems: seq<PageItem>, ghost decided: seq<bool>, d': seq<PageItem>, pages': seq<PdfPage>, ghost added: seq<PdfPage>)
    requires |angles| == |pageItems|
    requires forall k :: 0 <= k < |pageItems| ==> AngleOf(pageItems[k]) == angles[k]
    ensures decided == DecisionsAt(pageItems, angles, |pageItems|, direction, |pages|)
    ensures |newItems| == 2 * CountTrue(decided)
    ensures d' == ApplySplits(d, pageItems, decided, newItems)
    ensures pages' == pages + added && |added| == |newItems|
    ensures SplitPairs(direction, Chosen(pageItems, decided), Chosen(angles, decided), newItems, pages', |pages|)
    ensures forall x :: x in newItems ==> fresh(x)
    ensures forall p :: p in added ==> fresh(p)
  {
    newItems, decided, d', pages', added := [], [], d, pages, [];
    ghost var chosen: seq<PageItem> := [];
    var i := 0;
    while i < |pageItems|
      invariant 0 <= i <= |pageItems|
      invariant decided == DecisionsAt(pageItems, angles, i, direction, |pages|)
      invariant SplitProgress(d, pageItems[..i], decided, chosen, newItems, d')
      invariant pages' == pages + added && |added| == |newItems|
      invariant SplitPairs(direction, chosen, Chosen(angles[..i], decided), newItems, pages', |pages|)
      invariant forall x :: x in newItems ==> fresh(x)
      invariant forall p :: p in added ==> fresh(p)
    {
      assert AngleOf(pageItems[i]) == angles[i];
      var split;
      ghost var nextAdded;
      split, newItems, d', nextAdded, pages' := SplitNext(direction, pageItems, angles, i, d, decided, chosen, Chosen(angles[..i], decided), newItems, d', pages, added, pages');
      ChosenStep(angles, decided, i, split);
      decided, added := decided + [split], nextAdded;
      if split {
        chosen := chosen + [pageItems[i]];
      }
      i := i + 1;
    }
    SliceAll(pageItems);
    SliceAll(angles);
  }
}
