/** The command handlers' own logic in src/extension.ts: which items a command acts on,
    how `splitPages` cuts the pages into output files and names them, the sort command's
    toggled state, and the rotation that `rotate` adds. The tree view's selection, the
    dialogs and the file writes belong to the editor host and are parameters here. */
module Extension {
  import opened Text
  import opened PageTree

  // ---------------------------------------------------------------------------------
  // Selection.

  /** `_getSelectedOrAll()`: the selection when something is selected, else the whole
      list of the provider (`getPageItems()`, placeholder included). */
  function SelectedOrAll(selection: seq<PageItem>, all: seq<PageItem>): seq<PageItem> {
    if |selection| > 0 then selection else all
  }

  /** The pages `splitPages` exports: the selection only when more than one item is
      selected. */
  function SplitPagesSource(selection: seq<PageItem>, all: seq<PageItem>): seq<PageItem> {
    if |selection| > 1 then selection else all
  }

  /** The two rules disagree only on a selection of exactly one item, which `splitPages`
      ignores in favour of the whole list. */
  lemma SplitPagesSourceDiffers(selection: seq<PageItem>, all: seq<PageItem>)
    ensures SplitPagesSource(selection, all) != SelectedOrAll(selection, all) <==> |selection| == 1 && selection != all
  {
  }

  /** A command acting on `_getSelectedOrAll()` always gets at least one item, because the
      provider's list is never empty after a refresh. */
  lemma SelectedOrAllNotEmpty(selection: seq<PageItem>, all: seq<PageItem>)
    requires all != []
    ensures SelectedOrAll(selection, all) != []
    ensures forall x :: x in SelectedOrAll(selection, all) ==> x in selection || x in all
  {
  }

  // ---------------------------------------------------------------------------------
  // splitPages: chunks of `pagesPerDoc` pages, one output file each.

  /** The runs of `k` elements the loop of `splitPages` takes, the last one possibly
      shorter. */
  function Chunks<T>(s: seq<T>, k: nat): seq<seq<T>>
    requires k >= 1
    decreases |s|
  {
    if s == [] then []
    else if |s| <= k then [s]
    else [s[..k]] + Chunks(s[k..], k)
  }

  /** The chunks written one after the other. */
  function Flatten<T>(chunks: seq<seq<T>>): seq<T> {
    if chunks == [] then [] else chunks[0] + Flatten(chunks[1..])
  }

  /** The chunks, put back together, are the pages, in order. */
  lemma {:induction false} ChunksFlatten<T>(s: seq<T>, k: nat)
    requires k >= 1
    ensures Flatten(Chunks(s, k)) == s
  {
    if |s| > k {
      ChunksFlatten(s[k..], k);
      assert ([s[..k]] + Chunks(s[k..], k))[1..] == Chunks(s[k..], k);
      assert s[..k] + s[k..] == s;
    } else if s != [] {
      assert [s][1..] == [];
      assert s + [] == s;
    }
  }

  /** Every chunk holds `k` pages except the last, which holds between 1 and `k`. */
  predicate ChunkSized<T>(c: seq<seq<T>>, k: nat) {
    && (forall i :: 0 <= i < |c| ==> 1 <= |c[i]| <= k)
    && (forall i :: 0 <= i < |c| - 1 ==> |c[i]| == k)
  }

  lemma {:induction false} ChunksSizes<T>(s: seq<T>, k: nat)
    requires k >= 1
    ensures ChunkSized(Chunks(s, k), k)
  {
    var c := Chunks(s, k);
    if |s| > k {
      var rest := Chunks(s[k..], k);
      ChunksSizes(s[k..], k);
      assert c == [s[..k]] + rest;
      forall i | 0 <= i < |c| ensures 1 <= |c[i]| <= k && (i < |c| - 1 ==> |c[i]| == k) {
        if i > 0 {
          assert c[i] == rest[i - 1];
        }
      }
    }
  }

  /** There are ⌈n / k⌉ chunks for `n` pages: none for no pages, and otherwise the
      number `c` with `(c - 1) * k < n <= c * k`. */
  lemma {:induction false} ChunksCount<T>(s: seq<T>, k: nat)
    requires k >= 1
    ensures var c := |Chunks(s, k)|;
      && (c == 0 <==> s == [])
      && (s != [] ==> (c - 1) * k < |s| <= c * k)
  {
    if |s| > k {
      ChunksCount(s[k..], k);
      var c := |Chunks(s[k..], k)|;
      assert (c + 1) * k == c * k + k;
    }
  }

  /** One round of the loop: the first chunk is the slice up to `min(|s|, k)`. */
  lemma ChunksStep<T>(s: seq<T>, k: nat)
    requires k >= 1 && s != []
    ensures var end := if |s| < k then |s| else k;
      Chunks(s, k) == [s[..end]] + Chunks(s[end..], k)
  {
    if |s| <= k {
      assert s[..|s|] == s && s[|s|..] == [];
    }
  }

  /** The loop's view of one round: the chunks taken so far and the chunks of what is
      left make up the chunks of the whole, one round further on. */
  lemma ChunksAdvance<T>(s: seq<T>, position: nat, target: nat, k: nat, done: seq<seq<T>>)
    requires k >= 1 && position < |s|
    requires target == if |s| < position + k then |s| else position + k
    requires done + Chunks(s[position..], k) == Chunks(s, k)
    ensures (done + [s[position..target]]) + Chunks(s[target..], k) == Chunks(s, k)
  {
    var rest := s[position..];
    ChunksStep(rest, k);
    assert rest[..target - position] == s[position..target];
    assert rest[target - position..] == s[target..];
    assert done + ([s[position..target]] + Chunks(s[target..], k)) == (done + [s[position..target]]) + Chunks(s[target..], k);
  }

  /** `filePrefix`: the chosen path without its last four characters (the ".pdf" the save
      dialog ends it with); the text "undefined" when the dialog was cancelled. */
  function FilePrefix(saveFile: Option<string>): (prefix: string)
    ensures saveFile.Some? && |saveFile.value| >= 4 ==> prefix + saveFile.value[|saveFile.value| - 4..] == saveFile.value
    ensures saveFile.Some? && |saveFile.value| < 4 ==> prefix == []
  {
    if saveFile.Some? then Substring(saveFile.value, 0, |saveFile.value| - 4) else "undefined"
  }

  /** `substring(0, length - 4)` counts UTF-16 code units: when the last four characters of
      the path are each one code unit, the prefix is exactly the path's code units without
      the last four. */
  lemma FilePrefixCodeUnits(path: string)
    requires |path| >= 4
    requires forall i :: |path| - 4 <= i < |path| ==> path[i] as int < 0x10000
    ensures var u := Utf16(path); |u| >= 4 && Utf16(FilePrefix(Some(path))) == u[..|u| - 4]
  {
    var prefix, tail := path[..|path| - 4], path[|path| - 4..];
    assert path == prefix + tail;
    assert FilePrefix(Some(path)) == prefix;
    Utf16Concat(prefix, tail);
    assert forall i :: 0 <= i < |tail| ==> tail[i] == path[|path| - 4 + i];
    Utf16OfBmp(tail);
    var u, up := Utf16(path), Utf16(prefix);
    assert u == up + Utf16(tail) && |u| == |up| + 4;
    assert u[..|u| - 4] == up;
  }

  /** The name of the `counter`-th output file: `filePrefix + "_" + counter + ".pdf"`. */
  function ChunkFileName(prefix: string, counter: nat): string {
    prefix + "_" + NatToString(counter) + ".pdf"
  }

  /** A path chosen as `p.pdf` gives the files `p_1.pdf`, `p_2.pdf`, ... */
  lemma ChunkFileNameOfPdf(p: string, counter: nat)
    ensures ChunkFileName(FilePrefix(Some(p + ".pdf")), counter) == p + "_" + NatToString(counter) + ".pdf"
  {
    var path := p + ".pdf";
    assert path[..|path| - 4] == p;
  }

  /** Different output files get different names. */
  lemma ChunkFileNamesDistinct(prefix: string, m: nat, n: nat)
    requires ChunkFileName(prefix, m) == ChunkFileName(prefix, n)
    ensures m == n
  {
    var a, b := ChunkFileName(prefix, m), ChunkFileName(prefix, n);
    var start := |prefix| + 1;
    assert a[start..|a| - 4] == NatToString(m);
    assert b[start..|b| - 4] == NatToString(n);
    PrintedInjective(m, n);
  }

  /** An output file: its name and the pages written to it. */
  datatype OutputFile = OutputFile(name: string, pages: seq<PageItem>)

  /** One more file, named after its position, keeps file `i` named `prefix_i.pdf` and
      holding chunk `i`. */
  lemma NamedFilesExtend(prefix: string, files: seq<OutputFile>, done: seq<seq<PageItem>>, chunk: seq<PageItem>)
    requires |files| == |done|
    requires forall i :: 0 <= i < |files| ==> files[i] == OutputFile(ChunkFileName(prefix, i + 1), done[i])
    ensures var files', done' := files + [OutputFile(ChunkFileName(prefix, |files| + 1), chunk)], done + [chunk];
      forall i :: 0 <= i < |files'| ==> files'[i] == OutputFile(ChunkFileName(prefix, i + 1), done'[i])
  {
  }

  /** How many chunks, from the first, `pdfFrom` exports before one makes it throw. */
  function ExportCount(chunks: seq<seq<PageItem>>, pageCount: nat): (r: nat)
    ensures r <= |chunks|
    ensures r < |chunks| ==> !Exportable(chunks[r], pageCount)
  {
    if chunks == [] || !Exportable(chunks[0], pageCount) then 0
    else 1 + ExportCount(chunks[1..], pageCount)
  }

  /** Every chunk before the count exports. */
  lemma {:induction false} ExportCountPrefix(chunks: seq<seq<PageItem>>, pageCount: nat, i: nat)
    requires i < ExportCount(chunks, pageCount)
    ensures Exportable(chunks[i], pageCount)
  {
    if i > 0 {
      ExportCountPrefix(chunks[1..], pageCount, i - 1);
      assert chunks[1..][i - 1] == chunks[i];
    }
  }

  /** The count stops at the first chunk that does not export. */
  lemma ExportCountAt(chunks: seq<seq<PageItem>>, pageCount: nat, n: nat)
    requires n < |chunks| && !Exportable(chunks[n], pageCount)
    requires ExportCount(chunks, pageCount) >= n
    ensures ExportCount(chunks, pageCount) == n
  {
    if ExportCount(chunks, pageCount) > n {
      ExportCountPrefix(chunks, pageCount, n);
    }
  }

  /** The count goes past every chunk that, with all before it, exports. */
  lemma ExportCountPast(chunks: seq<seq<PageItem>>, pageCount: nat, n: nat)
    requires n < |chunks| && Exportable(chunks[n], pageCount)
    requires ExportCount(chunks, pageCount) >= n
    ensures ExportCount(chunks, pageCount) > n
  {
  }

  /** The number of files `splitPages` writes before it ends or throws. A chunk that
      exports is followed by a reload (`pdfFrom` then calls `refreshModel`), which throws
      on an item without a page context; after the reload of an empty list the list is the
      placeholder alone, which makes the next reload throw. */
  function FilesWritten(data: seq<PageItem>, chunks: seq<seq<PageItem>>, pageCount: nat): (r: nat)
    ensures r <= |chunks|
  {
    if !Reloadable(data) then 0
    else if data == [] then (if ExportCount(chunks, pageCount) == 0 then 0 else 1)
    else ExportCount(chunks, pageCount)
  }

  /** Round `n` of the loop goes through, the rounds before it having gone through: its
      chunk exports, and the reload after it does not throw. The first reload throws
      unless every item of the list has a page context; a later one throws when the list
      was empty, since it is then the placeholder alone. */
  predicate RoundGoesThrough(data: seq<PageItem>, chunks: seq<seq<PageItem>>, pageCount: nat, n: nat)
    requires n < |chunks|
  {
    Exportable(chunks[n], pageCount) && if n == 0 then Reloadable(data) else data != []
  }

  /** `FilesWritten` counts the rounds up to the first that does not go through. */
  lemma FilesWrittenStops(data: seq<PageItem>, chunks: seq<seq<PageItem>>, pageCount: nat, n: nat)
    requires n < |chunks| && n <= FilesWritten(data, chunks, pageCount)
    requires !RoundGoesThrough(data, chunks, pageCount, n)
    ensures FilesWritten(data, chunks, pageCount) == n
  {
    if n > 0 && Reloadable(data) && data != [] && !Exportable(chunks[n], pageCount) {
      ExportCountAt(chunks, pageCount, n);
    }
  }

  /** ... and goes past every round that does go through. */
  lemma FilesWrittenGoes(data: seq<PageItem>, chunks: seq<seq<PageItem>>, pageCount: nat, n: nat)
    requires n < |chunks| && n <= FilesWritten(data, chunks, pageCount)
    requires RoundGoesThrough(data, chunks, pageCount, n)
    ensures FilesWritten(data, chunks, pageCount) > n
  {
    ExportCountPast(chunks, pageCount, n);
  }

  /** When every page exported has a page context on the container, every chunk exports. */
  lemma {:induction false} ChunksExport(s: seq<PageItem>, k: nat, pageCount: nat)
    requires k >= 1 && Exportable(s, pageCount)
    ensures ExportCount(Chunks(s, k), pageCount) == |Chunks(s, k)|
    decreases |s|
  {
    if |s| > k {
      assert Exportable(s[..k], pageCount) by {
        forall i | 0 <= i < k ensures s[..k][i] == s[i] { }
      }
      assert Exportable(s[k..], pageCount) by {
        forall i | 0 <= i < |s| - k ensures s[k..][i] == s[k + i] { }
      }
      ChunksExport(s[k..], k, pageCount);
      assert Chunks(s, k)[1..] == Chunks(s[k..], k);
    } else if s != [] {
      assert Chunks(s, k) == [s];
    }
  }

  /** Splitting the whole list of a loaded document (nothing or one item selected) writes
      every file: each item has a page context on the container. */
  lemma SplitAllWritesEveryFile(selection: seq<PageItem>, data: seq<PageItem>, k: nat, pageCount: nat)
    requires k >= 1 && |selection| <= 1 && data != [] && Exportable(data, pageCount)
    ensures var chunks := Chunks(SplitPagesSource(selection, data), k);
      FilesWritten(data, chunks, pageCount) == |chunks|
  {
    ChunksExport(data, k, pageCount);
  }

  /** Splitting a list that is only the placeholder writes nothing: its chunk has no page
      context. */
  lemma SplitPlaceholderWritesNothing(selection: seq<PageItem>, placeholder: PageItem, k: nat, pageCount: nat)
    requires k >= 1 && |selection| <= 1 && placeholder.ctx == None
    ensures FilesWritten([placeholder], Chunks(SplitPagesSource(selection, [placeholder]), k), pageCount) == 0
  {
    assert !Reloadable([placeholder]) by {
      assert [placeholder][0].ctx.None?;
    }
  }

  /** The provider after `rounds` rounds of the loop that went through, started on the
      list `data` and the pages `pages`: each reload kept the sizes and rotations of the
      pages and the labels, descriptions and page indices of the items (`sizes`,
      `rotations` and `listing` at the start). The list and the pages are untouched before
      any round; after one, the list holds reloaded items, or the placeholder alone when
      it was empty. */
  ghost predicate Progress(provider: PageTreeProvider, data: seq<PageItem>, pages: seq<PdfPage>,
                           sizes: seq<(real, real)>, rotations: seq<int>, listing: seq<(string, Option<string>, int)>,
                           rounds: nat)
    reads provider, provider.pages, provider.data
  {
    && Sizes(provider.pages) == sizes
    && Rotations(provider.pages) == rotations
    && (data != [] ==> Listing(provider.data) == listing)
    && (rounds == 0 ==> provider.data == data && provider.pages == pages)
    && (rounds > 0 ==> Reloadable(data))
    && (rounds > 0 && data == [] ==> provider.data == [provider.placeholder] && rounds == 1)
    && (rounds > 0 && data != [] ==> provider.data != [] && Reloadable(provider.data))
  }

  /** A round of the loop on the provider's side: `pdfFrom(chunk)`, which reloads the
      model, after `rounds` rounds that went through. */
  method ExportRound(provider: PageTreeProvider, ghost chunks: seq<seq<PageItem>>, chunk: seq<PageItem>,
                     ghost data: seq<PageItem>, ghost pages: seq<PdfPage>, ghost sizes: seq<(real, real)>,
                     ghost rotations: seq<int>, ghost listing: seq<(string, Option<string>, int)>, ghost rounds: nat)
    returns (ok: bool)
    requires provider.placeholder.ctx == None
    requires Progress(provider, data, pages, sizes, rotations, listing, rounds)
    requires rounds < |chunks| && chunks[rounds] == chunk && rounds <= FilesWritten(data, chunks, |sizes|)
    modifies provider`data, provider`pages
    ensures ok <==> RoundGoesThrough(data, chunks, |sizes|, rounds)
    ensures !ok ==> FilesWritten(data, chunks, |sizes|) == rounds
    ensures ok ==> FilesWritten(data, chunks, |sizes|) > rounds
    ensures Progress(provider, data, pages, sizes, rotations, listing, if ok then rounds + 1 else rounds)
  {
    if rounds > 0 && data == [] {
      // the list is the placeholder: the reload throws
      assert !Reloadable(provider.data) by {
        assert provider.data[0].ctx.None?;
      }
    }
    if data != [] {
      assert provider.data != [];
    }
    var document;
    ok, document := provider.PdfFrom(chunk, true);
    if ok {
      FilesWrittenGoes(data, chunks, |sizes|, rounds);
    } else {
      FilesWrittenStops(data, chunks, |sizes|, rounds);
    }
  }

  /** One round of the loop: the next `pagesPerDoc` pages from `position` (fewer at the
      end), `pdfFrom(chunk, true)`, and, when that goes through, the file named after the
      incremented counter. `ok` is false when `pdfFrom` throws, which ends the command. */
  method SplitRound(provider: PageTreeProvider, prefix: string, pages: seq<PageItem>, pagesPerDoc: int,
                    position: nat, counter: nat, files: seq<OutputFile>, ghost done: seq<seq<PageItem>>,
                    ghost chunks: seq<seq<PageItem>>, ghost data: seq<PageItem>, ghost pages0: seq<PdfPage>,
                    ghost sizes: seq<(real, real)>, ghost rotations: seq<int>, ghost listing: seq<(string, Option<string>, int)>)
    returns (position': nat, counter': nat, files': seq<OutputFile>, ghost done': seq<seq<PageItem>>, ok: bool)
    requires pagesPerDoc >= 1 && provider.placeholder.ctx == None
    requires position < |pages| && counter == |files| == |done|
    requires chunks == Chunks(pages, pagesPerDoc) && done + Chunks(pages[position..], pagesPerDoc) == chunks
    requires forall i :: 0 <= i < |files| ==> files[i] == OutputFile(ChunkFileName(prefix, i + 1), done[i])
    requires |files| <= FilesWritten(data, chunks, |sizes|)
    requires Progress(provider, data, pages0, sizes, rotations, listing, |files|)
    modifies provider`data, provider`pages
    ensures ok ==> position < position' <= |pages|
    ensures !ok ==> position' == position && |files'| == FilesWritten(data, chunks, |sizes|) < |chunks|
    ensures counter' == |files'| == |done'|
    ensures done' + Chunks(pages[position'..], pagesPerDoc) == chunks
    ensures forall i :: 0 <= i < |files'| ==> files'[i] == OutputFile(ChunkFileName(prefix, i + 1), done'[i])
    ensures |files'| <= FilesWritten(data, chunks, |sizes|)
    ensures Progress(provider, data, pages0, sizes, rotations, listing, |files'|)
  {
    var targetPosition := if |pages| < position + pagesPerDoc then |pages| else position + pagesPerDoc;
    var chunk := pages[position..targetPosition];
    ChunksAdvance(pages, position, targetPosition, pagesPerDoc, done);
    assert chunks[|done|] == chunk;
    ok := ExportRound(provider, chunks, chunk, data, pages0, sizes, rotations, listing, |files|);
    if !ok {
      // `pdfFrom` throws, on the chunk or in the reload, and ends the command
      position', counter', files', done' := position, counter, files, done;
    } else {
      NamedFilesExtend(prefix, files, done, chunk);
      position', counter' := targetPosition, counter + 1;
      files' := files + [OutputFile(ChunkFileName(prefix, counter'), chunk)];
      done' := done + [chunk];
    }
  }

  /** The loop of the `splitPages` command: `position` goes up by `pagesPerDoc` (capped at
      the length), each round exports the slice it passed over with `pdfFrom`, which
      reloads the model, and writes it to the next numbered file. A round whose export
      or reload throws ends the loop (`completed` is false) before its file is written. */
  method WriteChunks(provider: PageTreeProvider, prefix: string, pages: seq<PageItem>, pagesPerDoc: int,
                     ghost chunks: seq<seq<PageItem>>, ghost data: seq<PageItem>, ghost pages0: seq<PdfPage>,
                     ghost sizes: seq<(real, real)>, ghost rotations: seq<int>, ghost listing: seq<(string, Option<string>, int)>)
    returns (files: seq<OutputFile>, completed: bool)
    requires pagesPerDoc >= 1 && provider.placeholder.ctx == None
    requires chunks == Chunks(pages, pagesPerDoc)
    requires Progress(provider, data, pages0, sizes, rotations, listing, 0)
    modifies provider`data, provider`pages
    ensures |files| == FilesWritten(data, chunks, |sizes|)
    ensures forall i :: 0 <= i < |files| ==> files[i] == OutputFile(ChunkFileName(prefix, i + 1), chunks[i])
    ensures completed <==> |files| == |chunks|
    ensures Progress(provider, data, pages0, sizes, rotations, listing, |files|)
  {
    ghost var done: seq<seq<PageItem>> := [];
    files := [];
    var position := 0;
    var counter := 0;
    var stopped := false;
    while position < |pages| && !stopped
      invariant 0 <= position <= |pages| && counter == |files| == |done|
      invariant done + Chunks(pages[position..], pagesPerDoc) == chunks
      invariant forall i :: 0 <= i < |files| ==> files[i] == OutputFile(ChunkFileName(prefix, i + 1), done[i])
      invariant |files| <= FilesWritten(data, chunks, |sizes|)
      invariant Progress(provider, data, pages0, sizes, rotations, listing, |files|)
      invariant stopped ==> |files| == FilesWritten(data, chunks, |sizes|) < |chunks|
      decreases |pages| - position, if stopped then 0 else 1
    {
      var ok;
      position, counter, files, done, ok :=
        SplitRound(provider, prefix, pages, pagesPerDoc, position, counter, files, done, chunks, data, pages0, sizes, rotations, listing);
      stopped := !ok;
    }
    if !stopped {
      assert pages[position..] == [];
    }
    completed := !stopped;
  }

  /** The `splitPages` command: the selected pages, or all of them, are taken once, before
      the loop, so the reloads of later rounds do not change them; then the loop above
      writes `<prefix>_1.pdf`, `<prefix>_2.pdf`, ... The file contents come from the PDF
      library and are the slices here. */
  method SplitPages(provider: PageTreeProvider, saveFile: Option<string>, selection: seq<PageItem>, pagesPerDoc: int)
    returns (files: seq<OutputFile>, completed: bool)
    requires pagesPerDoc >= 1
    requires provider.placeholder.ctx == None
    modifies provider`data, provider`pages
    ensures var chunks := Chunks(SplitPagesSource(selection, old(provider.data)), pagesPerDoc);
      && |files| == FilesWritten(old(provider.data), chunks, |old(provider.pages)|)
      && (forall i :: 0 <= i < |files| ==> files[i] == OutputFile(ChunkFileName(FilePrefix(saveFile), i + 1), chunks[i]))
      && (completed <==> |files| == |chunks|)
    ensures Sizes(provider.pages) == Sizes(old(provider.pages))
    ensures Rotations(provider.pages) == old(Rotations(provider.pages))
    ensures old(provider.data) != [] ==> Listing(provider.data) == old(Listing(provider.data))
    ensures |files| == 0 ==> provider.data == old(provider.data) && provider.pages == old(provider.pages)
    ensures |files| > 0 && old(provider.data) == [] ==> provider.data == [provider.placeholder]
    ensures |files| > 0 && old(provider.data) != [] ==> Reloadable(provider.data)
  {
    var prefix := FilePrefix(saveFile);
    var pages := SplitPagesSource(selection, provider.data);
    ghost var data0, pages0 := provider.data, provider.pages;
    ghost var sizes0, rotations0, listing0 := Sizes(provider.pages), Rotations(provider.pages), Listing(provider.data);
    files, completed := WriteChunks(provider, prefix, pages, pagesPerDoc, Chunks(pages, pagesPerDoc), data0, pages0, sizes0, rotations0, listing0);
  }


  /** The loop's `position` after `steps` rounds, as written, for any number typed in:
      `Math.min(pages.length, position + pagesPerDoc)`. */
  function PositionAfter(n: nat, pagesPerDoc: int, steps: nat): int {
    if steps == 0 then 0
    else
      var position := PositionAfter(n, pagesPerDoc, steps - 1);
      if n < position + pagesPerDoc then n else position + pagesPerDoc
  }

  /** With a chunk size of 0 or less (the input check refuses only what is not a number)
      and at least one page, `position` never reaches the length: the loop does not end. */
  lemma {:induction false} SplitPagesNeverEnds(n: nat, pagesPerDoc: int, steps: nat)
    requires n > 0 && pagesPerDoc <= 0
    ensures PositionAfter(n, pagesPerDoc, steps) <= 0 < n
  {
    if steps > 0 {
      SplitPagesNeverEnds(n, pagesPerDoc, steps - 1);
    }
  }

  /** With a chunk size of at least 1, the position after `steps` rounds is
      `min(n, steps * pagesPerDoc)`, so the loop ends after ⌈n / pagesPerDoc⌉ rounds. */
  lemma {:induction false} PositionAdvances(n: nat, pagesPerDoc: int, steps: nat)
    requires pagesPerDoc >= 1
    ensures PositionAfter(n, pagesPerDoc, steps) == if steps * pagesPerDoc < n then steps * pagesPerDoc else n
  {
    if steps > 0 {
      PositionAdvances(n, pagesPerDoc, steps - 1);
      assert steps * pagesPerDoc == (steps - 1) * pagesPerDoc + pagesPerDoc;
    }
  }

  // ---------------------------------------------------------------------------------
  // The sort command's state.

  /** `CONTEXT.sortState` after `n` sort commands: it starts out false and each command
      flips it before sorting with it. */
  function SortStateAfter(n: nat): bool {
    if n == 0 then false else !SortStateAfter(n - 1)
  }

  /** The `n`-th sort command sorts with `true` (largest label first) when `n` is odd and
      with `false` when it is even: the first one sorts descending. */
  lemma {:induction false} SortStateAlternates(n: nat)
    ensures SortStateAfter(n) <==> n % 2 == 1
  {
    if n > 0 {
      SortStateAlternates(n - 1);
    }
  }

  /** The extension's `CONTEXT` object, reduced to the sort state. */
  class Context {
    var sortState: bool
    /** How many sort commands have run. */
    ghost var sortCommands: nat

    ghost predicate Valid()
      reads this
    {
      sortState == SortStateAfter(sortCommands)
    }

    constructor ()
      ensures Valid() && sortCommands == 0 && !sortState
    {
      sortState := false;
      sortCommands := 0;
    }

    /** The `pdf-tools.sort` command: flip the state, then sort the list with it. */
    method SortCommand(provider: PageTreeProvider)
      requires Valid()
      modifies this`sortState, this`sortCommands, provider`data
      ensures Valid() && sortCommands == old(sortCommands) + 1
      ensures sortState == !old(sortState)
      ensures provider.data == Refresh(old(SortedByLabel(provider.data, !sortState)), provider.placeholder)
    {
      sortState := !sortState;
      sortCommands := sortCommands + 1;
      provider.Sort(sortState);
    }
  }

  // ---------------------------------------------------------------------------------
  // rotate: 90 degrees more on the page of every targeted item.

  /** The item has a page that `item.data!.pdfPage` reaches. */
  predicate HasPage(item: PageItem) {
    item.ctx.Some? && item.ctx.value.page != null
  }

  /** How far the loop of `rotate` gets: it throws at the first item without a page. */
  function RotateReach(items: seq<PageItem>): (r: nat)
    ensures r <= |items|
    ensures forall i :: 0 <= i < r ==> HasPage(items[i])
    ensures r < |items| ==> !HasPage(items[r])
  {
    if items == [] || !HasPage(items[0]) then 0
    else
      var r := RotateReach(items[1..]);
      assert forall i :: 1 <= i < r + 1 ==> items[i] == items[1..][i - 1];
      r + 1
  }

  /** How many of the items show page `p`. */
  function Occurrences(items: seq<PageItem>, p: PdfPage): nat {
    if items == [] then 0
    else
      var last := items[|items| - 1];
      Occurrences(items[..|items| - 1], p) + if HasPage(last) && last.ctx.value.page == p then 1 else 0
  }

  /** An item whose page is not `p` leaves the count of `p` as it was. */
  lemma OccurrencesExtend(items: seq<PageItem>, i: nat, p: PdfPage)
    requires i < |items| && HasPage(items[i])
    ensures Occurrences(items[..i + 1], p) == Occurrences(items[..i], p) + if items[i].ctx.value.page == p then 1 else 0
  {
    assert items[..i + 1][..i] == items[..i];
  }

  /** The `pdf-tools.rotate` command on the items of `_getSelectedOrAll()`: each one's page
      turns by 90 more degrees, until an item without a page makes the loop throw. A page
      shown by several of the items turns once per item. Returns how many items were
      handled. */
  method Rotate(selection: seq<PageItem>, all: seq<PageItem>) returns (rotated: nat)
    modifies PagesOf(SelectedOrAll(selection, all))
    ensures rotated == RotateReach(SelectedOrAll(selection, all))
    ensures var items := SelectedOrAll(selection, all);
      forall p :: p in PagesOf(items) ==> p.angle == old(p.angle) + 90 * Occurrences(items[..rotated], p)
  {
    var items := SelectedOrAll(selection, all);
    rotated := 0;
    while rotated < |items|
      invariant 0 <= rotated <= |items|
      invariant forall i :: 0 <= i < rotated ==> HasPage(items[i])
      invariant forall p :: p in PagesOf(items) ==> p.angle == old(p.angle) + 90 * Occurrences(items[..rotated], p)
    {
      var item := items[rotated];
      if !HasPage(item) {
        return;
      }
      var page := item.ctx.value.page;
      assert page in PagesOf(items);
      page.angle := page.angle + 90;
      forall p | p in PagesOf(items)
        ensures Occurrences(items[..rotated + 1], p) == Occurrences(items[..rotated], p) + if page == p then 1 else 0
      {
        OccurrencesExtend(items, rotated, p);
      }
      rotated := rotated + 1;
    }
  }
}
