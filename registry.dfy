/** The page registry of a tab: `self.records`, the tree selection and the drag origin,
    with the operations the tab's buttons and mouse handlers perform on them. Both tabs
    share this code; only adding entries differs between them. */
module Registry {
  import opened Wrappers
  import opened Pages
  import Sources

  // ---------------- the list operations, as values ----------------

  /** `s.pop(i)` */
  function RemoveAt<T>(s: seq<T>, i: nat): seq<T>
    requires i < |s|
  {
    s[..i] + s[i + 1..]
  }

  /** `s.insert(i, x)` for `0 <= i <= len(s)` */
  function InsertAt<T>(s: seq<T>, i: nat, x: T): seq<T>
    requires i <= |s|
  {
    s[..i] + [x] + s[i..]
  }

  /** The drag splice: `item = s.pop(frm); s.insert(to, item)`. */
  function MoveTo<T>(s: seq<T>, frm: nat, to: nat): seq<T>
    requires frm < |s| && to < |s|
  {
    InsertAt(RemoveAt(s, frm), to, s[frm])
  }

  /** `s[i], s[j] = s[j], s[i]` */
  function SwapAt<T>(s: seq<T>, i: nat, j: nat): seq<T>
    requires i < |s| && j < |s|
  {
    s[i := s[j]][j := s[i]]
  }

  /** Popping shortens the list by one: entries before `i` stay, later ones shift left,
      and the popped entry is the only one missing. */
  lemma RemoveAtShape<T>(s: seq<T>, i: nat)
    requires i < |s|
    ensures |RemoveAt(s, i)| == |s| - 1
    ensures forall k :: 0 <= k < i ==> RemoveAt(s, i)[k] == s[k]
    ensures forall k :: i <= k < |s| - 1 ==> RemoveAt(s, i)[k] == s[k + 1]
    ensures multiset(RemoveAt(s, i)) + multiset{s[i]} == multiset(s)
  {
    assert s == s[..i] + [s[i]] + s[i + 1..];
  }

  /** Re-inserting a popped entry where it was restores the list, and popping an entry
      just inserted removes it again. */
  lemma InsertRemoveRoundTrip<T>(s: seq<T>, i: nat, x: T)
    requires i <= |s|
    ensures RemoveAt(InsertAt(s, i, x), i) == s
    ensures i < |s| ==> InsertAt(RemoveAt(s, i), i, s[i]) == s
  {
    var t := InsertAt(s, i, x);
    assert t[..i] == s[..i] && t[i + 1..] == s[i..];
    if i < |s| {
      assert s == s[..i] + [s[i]] + s[i + 1..];
    }
  }

  /** Inserting lengthens the list by one: entries before `i` stay, `x` sits at `i`,
      later ones shift right, and `x` is the only entry added. */
  lemma InsertAtShape<T>(s: seq<T>, i: nat, x: T)
    requires i <= |s|
    ensures |InsertAt(s, i, x)| == |s| + 1
    ensures InsertAt(s, i, x)[i] == x
    ensures forall k :: 0 <= k < i ==> InsertAt(s, i, x)[k] == s[k]
    ensures forall k :: i < k <= |s| ==> InsertAt(s, i, x)[k] == s[k - 1]
    ensures multiset(InsertAt(s, i, x)) == multiset(s) + multiset{x}
  {
    assert s == s[..i] + s[i..];
  }

  /** The drag splice keeps length and contents, puts the dragged entry at `to`, shifts
      the entries between the two positions by one towards `frm`, and leaves the rest. */
  lemma MoveToShape<T>(s: seq<T>, frm: nat, to: nat)
    requires frm < |s| && to < |s|
    ensures |MoveTo(s, frm, to)| == |s|
    ensures multiset(MoveTo(s, frm, to)) == multiset(s)
    ensures MoveTo(s, frm, to)[to] == s[frm]
    ensures forall k :: 0 <= k < |s| && k < frm && k < to ==> MoveTo(s, frm, to)[k] == s[k]
    ensures forall k :: 0 <= k < |s| && k > frm && k > to ==> MoveTo(s, frm, to)[k] == s[k]
    ensures forall k :: frm <= k < to ==> MoveTo(s, frm, to)[k] == s[k + 1]
    ensures forall k :: to < k <= frm ==> MoveTo(s, frm, to)[k] == s[k - 1]
  {
    RemoveAtShape(s, frm);
    InsertAtShape(RemoveAt(s, frm), to, s[frm]);
  }

  /** Dragging back to where the entry came from undoes a drag. */
  lemma MoveToInverse<T>(s: seq<T>, frm: nat, to: nat)
    requires frm < |s| && to < |s|
    ensures MoveTo(MoveTo(s, frm, to), to, frm) == s
  {
    var r := RemoveAt(s, frm);
    var m := MoveTo(s, frm, to);
    MoveToShape(s, frm, to);
    InsertRemoveRoundTrip(r, to, s[frm]);
    assert RemoveAt(m, to) == r;
    InsertRemoveRoundTrip(s, frm, s[frm]);
  }

  /** Consecutive drag motions compose: since the drag origin follows the entry, moving
      it from `a` to `b` and then from `b` to `c` is the single move from `a` to `c`. */
  lemma MoveToCompose<T>(s: seq<T>, a: nat, b: nat, c: nat)
    requires a < |s| && b < |s| && c < |s|
    ensures MoveTo(MoveTo(s, a, b), b, c) == MoveTo(s, a, c)
  {
    var r := RemoveAt(s, a);
    var m := MoveTo(s, a, b);
    MoveToShape(s, a, b);
    InsertRemoveRoundTrip(r, b, s[a]);
    assert RemoveAt(m, b) == r;
  }

  /** Moving an entry onto its own slot changes nothing (the handler returns early). */
  lemma MoveToSelf<T>(s: seq<T>, i: nat)
    requires i < |s|
    ensures MoveTo(s, i, i) == s
  {
    InsertRemoveRoundTrip(s, i, s[i]);
  }

  /** Swapping exchanges two positions and leaves every other one. */
  lemma SwapAtShape<T>(s: seq<T>, i: nat, j: nat)
    requires i < |s| && j < |s|
    ensures |SwapAt(s, i, j)| == |s|
    ensures SwapAt(s, i, j)[i] == s[j] && SwapAt(s, i, j)[j] == s[i]
    ensures forall k :: 0 <= k < |s| && k != i && k != j ==> SwapAt(s, i, j)[k] == s[k]
  {
  }

  /** Swapping keeps the contents. */
  lemma SwapAtPermutes<T>(s: seq<T>, i: nat, j: nat)
    requires i < |s| && j < |s|
    ensures multiset(SwapAt(s, i, j)) == multiset(s)
  {
    var t := s[i := s[j]];
    assert multiset(t) == multiset(s) - multiset{s[i]} + multiset{s[j]};
    assert multiset(t[j := s[i]]) == multiset(t) - multiset{t[j]} + multiset{s[i]};
  }

  /** Swapping the same two positions again undoes a swap. */
  lemma SwapAtInvolution<T>(s: seq<T>, i: nat, j: nat)
    requires i < |s| && j < |s|
    ensures SwapAt(SwapAt(s, i, j), i, j) == s
  {
    SwapAtShape(s, i, j);
    SwapAtShape(SwapAt(s, i, j), i, j);
  }

  /** "Move up" and "move down" are drags by one slot. */
  lemma SwapIsAdjacentMove<T>(s: seq<T>, i: nat)
    requires 0 < i < |s|
    ensures SwapAt(s, i - 1, i) == MoveTo(s, i, i - 1)
    ensures SwapAt(s, i - 1, i) == MoveTo(s, i - 1, i)
  {
    MoveToShape(s, i, i - 1);
    MoveToShape(s, i - 1, i);
    SwapAtShape(s, i - 1, i);
  }

  // ---------------- the selection rule of refresh_tree ----------------

  /** `refresh_tree(select_index)`: with records, select `select_index` (0 when absent)
      clamped into `[0, n - 1]`; with none, nothing is selected and the preview is cleared. */
  function ClampSelection(selectIndex: Option<int>, n: nat): (sel: Option<nat>)
    ensures sel.None? <==> n == 0
    ensures sel.Some? ==> sel.value < n
    ensures n > 0 && selectIndex.None? ==> sel == Some(0)
    ensures n > 0 && selectIndex.Some? && 0 <= selectIndex.value < n ==> sel == Some(selectIndex.value)
    ensures n > 0 && selectIndex.Some? && selectIndex.value < 0 ==> sel == Some(0)
    ensures n > 0 && selectIndex.Some? && selectIndex.value >= n ==> sel == Some(n - 1)
  {
    if n == 0 then None
    else
      var i := selectIndex.GetOr(0);
      var m := if i < n - 1 then i else n - 1;
      Some(if m > 0 then m else 0)
  }

  // ---------------- what adding contributes ----------------

  /** `add_image_paths`: the paths PIL could open, as image entries, in order. */
  function OpenedImages(paths: seq<string>, opens: string -> bool): seq<PageEntry> {
    if paths == [] then []
    else
      var init := OpenedImages(paths[..|paths| - 1], opens);
      var p := paths[|paths| - 1];
      if opens(p) then init + [ImagePage(p)] else init
  }

  /** The first `n` pages of the PDF at `path`, as entries.
      The `ensures` clauses only read back the body; they are there for the verifier. */
  function DocPages(path: string, n: nat): (r: seq<PageEntry>)
    ensures |r| == n
    ensures forall k :: 0 <= k < n ==> r[k] == PdfPage(path, k)
  {
    seq(n, k requires 0 <= k < n => PdfPage(path, k))
  }

  /** What PyMuPDF does with one file in `add_pdf_paths`: how many of its pages were
      appended before an exception (all of them when none is raised, 0 when the file does
      not open), and whether an exception was raised. */
  datatype Rendering = Rendering(pages: nat, failed: bool)

  /** `add_pdf_paths`: the pages each path contributes, path after path. */
  function RenderedPages(paths: seq<string>, render: string -> Rendering): seq<PageEntry> {
    if paths == [] then []
    else RenderedPages(paths[..|paths| - 1], render) + DocPages(paths[|paths| - 1], render(paths[|paths| - 1]).pages)
  }

  lemma AppendAssoc<T>(a: seq<T>, b: seq<T>, c: seq<T>)
    ensures (a + b) + c == a + (b + c)
  {
  }

  lemma DocPagesSnoc(path: string, n: nat)
    ensures DocPages(path, n + 1) == DocPages(path, n) + [PdfPage(path, n)]
  {
  }

  lemma RenderedPagesSnoc(paths: seq<string>, p: string, render: string -> Rendering)
    ensures RenderedPages(paths + [p], render) == RenderedPages(paths, render) + DocPages(p, render(p).pages)
  {
    assert (paths + [p])[..|paths|] == paths;
  }

  lemma OpenedImagesStep(paths: seq<string>, i: nat, opens: string -> bool)
    requires i < |paths|
    ensures OpenedImages(paths[..i + 1], opens) ==
      OpenedImages(paths[..i], opens) + (if opens(paths[i]) then [ImagePage(paths[i])] else [])
  {
    assert paths[..i + 1] == paths[..i] + [paths[i]];
    OpenedImagesSnoc(paths[..i], paths[i], opens);
  }

  lemma OpenedImagesSnoc(paths: seq<string>, p: string, opens: string -> bool)
    ensures OpenedImages(paths + [p], opens) ==
      OpenedImages(paths, opens) + (if opens(p) then [ImagePage(p)] else [])
  {
    assert (paths + [p])[..|paths|] == paths;
  }

  /** The paths `add_pdf_paths` warns about, in order. */
  function FailedPaths(paths: seq<string>, render: string -> Rendering): (r: seq<string>)
    ensures forall p :: p in r ==> p in paths && render(p).failed
  {
    if paths == [] then []
    else
      var init := FailedPaths(paths[..|paths| - 1], render);
      var p := paths[|paths| - 1];
      if render(p).failed then init + [p] else init
  }

  lemma FailedPathsSnoc(paths: seq<string>, p: string, render: string -> Rendering)
    ensures FailedPaths(paths + [p], render) == FailedPaths(paths, render) + (if render(p).failed then [p] else [])
  {
    assert (paths + [p])[..|paths|] == paths;
  }

  /** Only images are added to the images tab, each with its own path. */
  lemma {:induction false} OpenedImagesAreImages(paths: seq<string>, opens: string -> bool)
    ensures forall k :: 0 <= k < |OpenedImages(paths, opens)| ==>
      OpenedImages(paths, opens)[k].ImagePage? && opens(OpenedImages(paths, opens)[k].path) &&
      OpenedImages(paths, opens)[k].path in paths
    ensures |OpenedImages(paths, opens)| <= |paths|
  {
    if paths != [] {
      var init := paths[..|paths| - 1];
      OpenedImagesAreImages(init, opens);
      var r := OpenedImages(paths, opens);
      var q := OpenedImages(init, opens);
      forall k | 0 <= k < |r| ensures r[k].ImagePage? && opens(r[k].path) && r[k].path in paths {
        if k < |q| {
          assert r[k] == q[k];
          assert q[k].path in init;
        }
      }
    }
  }

  /** The number of given paths that open, counted from the front. */
  function OpeningCount(paths: seq<string>, opens: string -> bool): nat {
    if paths == [] then 0 else (if opens(paths[0]) then 1 else 0) + OpeningCount(paths[1..], opens)
  }

  lemma {:induction false} OpeningCountSnoc(paths: seq<string>, p: string, opens: string -> bool)
    ensures OpeningCount(paths + [p], opens) == OpeningCount(paths, opens) + (if opens(p) then 1 else 0)
  {
    if paths != [] {
      assert (paths + [p])[1..] == paths[1..] + [p];
      OpeningCountSnoc(paths[1..], p, opens);
    }
  }

  /** Every path that opens is added once per time it was given, and nothing else is:
      an entry occurs as often as its path was given when that path opens, and never
      otherwise. */
  lemma {:induction false} OpenedImagesExact(paths: seq<string>, opens: string -> bool)
    ensures forall e ::
      multiset(OpenedImages(paths, opens))[e] == (if e.ImagePage? && opens(e.path) then multiset(paths)[e.path] else 0)
  {
    if paths != [] {
      var init := paths[..|paths| - 1];
      var p := paths[|paths| - 1];
      OpenedImagesExact(init, opens);
      assert paths == init + [p];
      OpenedImagesSnoc(init, p, opens);
    }
  }

  /** `add_image_paths` appends every given path that opens, and as many entries as there
      are such paths (three good files and a corrupt one give three entries). */
  lemma OpenedImagesComplete(paths: seq<string>, opens: string -> bool)
    ensures forall k :: 0 <= k < |paths| && opens(paths[k]) ==> ImagePage(paths[k]) in OpenedImages(paths, opens)
    ensures |OpenedImages(paths, opens)| == OpeningCount(paths, opens)
  {
    OpenedImagesExact(paths, opens);
    forall k | 0 <= k < |paths| && opens(paths[k])
      ensures ImagePage(paths[k]) in OpenedImages(paths, opens)
    {
      assert paths[k] in multiset(paths);
      assert multiset(OpenedImages(paths, opens))[ImagePage(paths[k])] > 0;
    }
    OpenedImagesCount(paths, opens);
  }

  lemma {:induction false} OpenedImagesCount(paths: seq<string>, opens: string -> bool)
    ensures |OpenedImages(paths, opens)| == OpeningCount(paths, opens)
  {
    if paths != [] {
      var init := paths[..|paths| - 1];
      var p := paths[|paths| - 1];
      OpenedImagesCount(init, opens);
      assert paths == init + [p];
      OpeningCountSnoc(init, p, opens);
    }
  }

  /** `add_pdf_paths` warns about every path whose rendering raised, once per time it was
      given, and about no other path. */
  lemma {:induction false} FailedPathsExact(paths: seq<string>, render: string -> Rendering)
    ensures forall p ::
      multiset(FailedPaths(paths, render))[p] == (if render(p).failed then multiset(paths)[p] else 0)
    ensures forall p :: p in paths && render(p).failed ==> p in FailedPaths(paths, render)
  {
    if paths != [] {
      var init := paths[..|paths| - 1];
      var q := paths[|paths| - 1];
      FailedPathsExact(init, render);
      assert paths == init + [q];
      FailedPathsSnoc(init, q, render);
    }
    forall p | p in paths && render(p).failed
      ensures p in FailedPaths(paths, render)
    {
      assert multiset(FailedPaths(paths, render))[p] > 0;
    }
  }

  lemma {:induction false} RenderedPagesAppend(a: seq<string>, b: seq<string>, render: string -> Rendering)
    ensures RenderedPages(a + b, render) == RenderedPages(a, render) + RenderedPages(b, render)
    decreases |b|
  {
    if b == [] {
      assert a + b == a;
    } else {
      var b' := b[..|b| - 1];
      var p := b[|b| - 1];
      assert a + b == (a + b') + [p];
      RenderedPagesSnoc(a + b', p, render);
      RenderedPagesAppend(a, b', render);
      assert b == b' + [p];
      RenderedPagesSnoc(b', p, render);
      AppendAssoc(RenderedPages(a, render), RenderedPages(b', render), DocPages(p, render(p).pages));
    }
  }

  /** The pages of one file are appended together: pages `0 .. n - 1` of that file, in
      order, right after the pages of the files before it and right before those of the
      files after it. */
  lemma RenderedPagesAround(front: seq<string>, p: string, back: seq<string>, render: string -> Rendering)
    ensures RenderedPages(front + [p] + back, render) ==
      RenderedPages(front, render) + DocPages(p, render(p).pages) + RenderedPages(back, render)
  {
    RenderedPagesAppend(front + [p], back, render);
    RenderedPagesSnoc(front, p, render);
  }

  /** Only PDF pages are added to the merge tab, each in range of what was rendered. */
  lemma {:induction false} RenderedPagesArePdf(paths: seq<string>, render: string -> Rendering)
    ensures forall k :: 0 <= k < |RenderedPages(paths, render)| ==>
      RenderedPages(paths, render)[k].PdfPage? &&
      RenderedPages(paths, render)[k].pageIdx < render(RenderedPages(paths, render)[k].path).pages
  {
    if paths != [] {
      var init := paths[..|paths| - 1];
      var p := paths[|paths| - 1];
      RenderedPagesArePdf(init, render);
      var q := RenderedPages(init, render);
      var d := DocPages(p, render(p).pages);
      var r := q + d;
      forall k | 0 <= k < |r|
        ensures r[k].PdfPage? && r[k].pageIdx < render(r[k].path).pages
      {
        if k < |q| {
          assert r[k] == q[k];
        } else {
          assert r[k] == d[k - |q|];
        }
      }
    }
  }

  // ---------------- the tab state ----------------

  class PageRegistry {
    /** Which tab this is. */
    const kind: TabKind
    /** `self.records`, in output order. */
    var records: seq<PageEntry>
    /** The tree's selected row, as `get_selected_index` reads it. */
    var selected: Option<nat>
    /** `self._drag_from_index` */
    var dragFrom: Option<nat>

    /** Records belong to the tab; a row is selected exactly when there are records, and
        the selected row exists. */
    ghost predicate Valid()
      reads this
    {
      (forall k :: 0 <= k < |records| ==> BelongsTo(kind, records[k])) &&
      (selected.None? <==> records == []) &&
      (selected.Some? ==> selected.value < |records|)
    }

    /** `__init__`: an empty list, nothing selected, no drag in progress. */
    constructor (kind: TabKind)
      ensures Valid()
      ensures this.kind == kind && records == [] && selected == None && dragFrom == None
    {
      this.kind := kind;
      records := [];
      selected := None;
      dragFrom := None;
    }

    /** The entry the preview panel shows; none when the list is empty. */
    function PreviewEntry(): (e: Option<PageEntry>)
      reads this
      requires Valid()
      ensures e.None? <==> records == []
      ensures e.Some? ==> selected.Some? && e.value == records[selected.value]
    {
      match selected
      case None => None
      case Some(i) => Some(records[i])
    }

    /** `refresh_tree(select_index)`: rows and footer are functions of `records`; what
        changes is the selection. */
    method RefreshTree(selectIndex: Option<int>)
      requires forall k :: 0 <= k < |records| ==> BelongsTo(kind, records[k])
      modifies this`selected
      ensures Valid()
      ensures selected == ClampSelection(selectIndex, |records|)
    {
      selected := ClampSelection(selectIndex, |records|);
    }

    /** `on_select`, after the user clicks a row. */
    method Select(row: nat)
      requires Valid() && row < |records|
      modifies this`selected
      ensures Valid() && selected == Some(row)
    {
      selected := Some(row);
    }

    /** The inner loop of `add_pdf_paths`: pages `0 .. n - 1` of `path`, in order. */
    method AppendPages(path: string, n: nat)
      modifies this`records
      ensures records == old(records) + DocPages(path, n)
    {
      var pageIdx := 0;
      while pageIdx < n
        invariant 0 <= pageIdx <= n
        invariant records == old(records) + DocPages(path, pageIdx)
      {
        DocPagesSnoc(path, pageIdx);
        records := records + [PdfPage(path, pageIdx)];
        pageIdx := pageIdx + 1;
      }
    }

    /** `add_image_paths`: every path that opens as an image is appended; when at least
        one was, the last record is selected. */
    method AddImagePaths(paths: seq<string>, opens: string -> bool)
      requires Valid() && kind == ImagesTab
      modifies this`records, this`selected
      ensures Valid()
      ensures records == old(records) + OpenedImages(paths, opens)
      ensures selected == if OpenedImages(paths, opens) == [] then old(selected) else Some(|records| - 1)
    {
      var added := 0;
      var i := 0;
      while i < |paths|
        invariant 0 <= i <= |paths|
        invariant records == old(records) + OpenedImages(paths[..i], opens)
        invariant added == |OpenedImages(paths[..i], opens)|
        invariant selected == old(selected)
      {
        OpenedImagesStep(paths, i, opens);
        if opens(paths[i]) {
          AppendAssoc(old(records), OpenedImages(paths[..i], opens), [ImagePage(paths[i])]);
          records := records + [ImagePage(paths[i])];
          added := added + 1;
        }
        i := i + 1;
      }
      assert paths[..i] == paths;
      OpenedImagesAreImages(paths, opens);
      if added > 0 {
        RefreshTree(Some(|records| - 1));
      }
    }

    /** The loop of `add_pdf_paths`: append the rendered pages of every path, path after
        path, and collect the paths that raised. */
    method AppendRendered(paths: seq<string>, render: string -> Rendering) returns (warnings: seq<string>)
      modifies this`records
      ensures records == old(records) + RenderedPages(paths, render)
      ensures warnings == FailedPaths(paths, render)
    {
      warnings := [];
      var i := 0;
      while i < |paths|
        invariant 0 <= i <= |paths|
        invariant records == old(records) + RenderedPages(paths[..i], render)
        invariant warnings == FailedPaths(paths[..i], render)
      {
        var path := paths[i];
        AppendPages(path, render(path).pages);
        if render(path).failed {
          warnings := warnings + [path];
        }
        assert paths[..i + 1] == paths[..i] + [path];
        RenderedPagesSnoc(paths[..i], path, render);
        FailedPathsSnoc(paths[..i], path, render);
        AppendAssoc(old(records), RenderedPages(paths[..i], render), DocPages(path, render(path).pages));
        i := i + 1;
      }
      assert paths[..i] == paths;
    }

    /** `add_pdf_paths`: the rendered pages of every path are appended in page order, a
        warning names every file that raised, and the last record is selected. */
    method AddPdfPaths(paths: seq<string>, render: string -> Rendering) returns (warnings: seq<string>)
      requires Valid() && kind == MergeTab
      modifies this`records, this`selected
      ensures Valid()
      ensures records == old(records) + RenderedPages(paths, render)
      ensures selected == if records == [] then None else Some(|records| - 1)
      ensures warnings == FailedPaths(paths, render)
    {
      warnings := AppendRendered(paths, render);
      RenderedPagesArePdf(paths, render);
      RefreshTree(Some(if |records| > 0 then |records| - 1 else 0));
    }

    /** The tab's own add operation: `add_image_paths` on the images tab, `add_pdf_paths`
        (its warnings aside) on the merge tab. */
    method AddPaths(paths: seq<string>, opens: string -> bool, render: string -> Rendering)
      requires Valid()
      modifies this`records, this`selected
      ensures Valid()
      ensures kind == ImagesTab ==>
        records == old(records) + OpenedImages(paths, opens) &&
        selected == if OpenedImages(paths, opens) == [] then old(selected) else Some(|records| - 1)
      ensures kind == MergeTab ==>
        records == old(records) + RenderedPages(paths, render) &&
        selected == if records == [] then None else Some(|records| - 1)
    {
      if kind == ImagesTab {
        AddImagePaths(paths, opens);
      } else {
        var _ := AddPdfPaths(paths, render);
      }
    }

    /** `add_images` / `add_pdfs`: a cancelled file dialog (no paths) adds nothing. */
    method AddFromDialog(paths: seq<string>, opens: string -> bool, render: string -> Rendering)
      requires Valid()
      modifies this`records, this`selected
      ensures Valid()
      ensures paths == [] ==> records == old(records) && selected == old(selected)
      ensures paths != [] && kind == ImagesTab ==>
        records == old(records) + OpenedImages(paths, opens) &&
        selected == if OpenedImages(paths, opens) == [] then old(selected) else Some(|records| - 1)
      ensures paths != [] && kind == MergeTab ==>
        records == old(records) + RenderedPages(paths, render) &&
        selected == if records == [] then None else Some(|records| - 1)
    {
      if paths != [] {
        AddPaths(paths, opens, render);
      }
    }

    /** The files a drop of `data` yields for this tab: the dropped tokens, collected with
        the tab's extensions. */
    function DroppedFiles(data: string, split: Option<seq<string>>, fs: Sources.FileSystem): seq<string> {
      Sources.Dedup(fs.canon, Sources.Candidates(
        Sources.DroppedTokens(Sources.SplitTokens(data, split)), Sources.AllowedSet(AllowedExts(kind)), fs))
    }

    /** `on_drop_files`: parse the dropped text, collect the files with the tab's
        extensions, warn when none is left, and add them otherwise. */
    method OnDropFiles(data: string, split: Option<seq<string>>, fs: Sources.FileSystem,
                       opens: string -> bool, render: string -> Rendering) returns (warned: bool)
      requires Valid()
      modifies this`records, this`selected
      ensures Valid()
      ensures var files := DroppedFiles(data, split, fs);
        (warned <==> files == []) &&
        (warned ==> records == old(records) && selected == old(selected)) &&
        (!warned && kind == ImagesTab ==>
           records == old(records) + OpenedImages(files, opens) &&
           selected == if OpenedImages(files, opens) == [] then old(selected) else Some(|records| - 1)) &&
        (!warned && kind == MergeTab ==>
           records == old(records) + RenderedPages(files, render) &&
           selected == if records == [] then None else Some(|records| - 1))
    {
      var dropped := Sources.ParseDroppedFiles(data, split);
      var files := Sources.CollectFiles(dropped, AllowedExts(kind), fs);
      assert files == DroppedFiles(data, split, fs);
      if files == [] {
        warned := true;
        return;
      }
      warned := false;
      AddPaths(files, opens, render);
    }

    /** `on_drag_start`: remember the row under the pointer, if any. */
    method OnDragStart(row: Option<nat>)
      requires row.Some? ==> row.value < |records|
      modifies this`dragFrom
      ensures dragFrom == row
    {
      dragFrom := row;
    }

    /** `on_drag_motion`: with a drag in progress over a different row, splice the dragged
        entry into that row, follow it with the drag origin, and select it. A drag origin
        that no longer exists makes `pop` raise, which leaves everything as it was. */
    method OnDragMotion(row: Option<nat>)
      requires Valid()
      requires row.Some? ==> row.value < |records|
      modifies this
      ensures Valid()
      ensures var moves := old(dragFrom).Some? && row.Some? && row.value != old(dragFrom).value &&
                           old(dragFrom).value < |old(records)|;
        (!moves ==> records == old(records) && selected == old(selected) && dragFrom == old(dragFrom)) &&
        (moves ==> records == MoveTo(old(records), old(dragFrom).value, row.value) &&
                   dragFrom == row && selected == row)
    {
      if dragFrom.None? || row.None? {
        return;
      }
      var to := row.value;
      var frm := dragFrom.value;
      if to == frm || frm >= |records| {
        return;
      }
      MoveToShape(records, frm, to);
      assert forall e :: e in MoveTo(records, frm, to) ==> e in records by {
        assert multiset(MoveTo(records, frm, to)) == multiset(records);
      }
      records := MoveTo(records, frm, to);
      dragFrom := Some(to);
      RefreshTree(Some(to));
    }

    /** `remove_selected`: pop the selected record and select the one before it. */
    method RemoveSelected()
      requires Valid()
      modifies this`records, this`selected
      ensures Valid()
      ensures old(selected).None? ==> records == old(records) && selected == None
      ensures old(selected).Some? ==>
        records == RemoveAt(old(records), old(selected).value) &&
        selected == (if records == [] then None
                     else Some(if old(selected).value == 0 then 0 else old(selected).value - 1))
    {
      if selected.None? {
        return;
      }
      var idx := selected.value;
      RemoveAtShape(records, idx);
      records := RemoveAt(records, idx);
      var prev := idx as int - 1;
      RefreshTree(Some(if prev > 0 then prev else 0));
    }

    /** `move_up`: swap the selected record with the one above and follow it; nothing
        happens without a selection or at the top. */
    method MoveUp()
      requires Valid()
      modifies this`records, this`selected
      ensures Valid()
      ensures old(selected).None? || old(selected).value == 0 ==>
        records == old(records) && selected == old(selected)
      ensures old(selected).Some? && old(selected).value > 0 ==>
        records == SwapAt(old(records), old(selected).value - 1, old(selected).value) &&
        selected == Some(old(selected).value - 1)
    {
      if selected.None? || selected.value == 0 {
        return;
      }
      var idx := selected.value;
      SwapAtShape(records, idx - 1, idx);
      records := records[idx - 1 := records[idx]][idx := records[idx - 1]];
      RefreshTree(Some(idx - 1));
    }

    /** `move_down`: swap the selected record with the one below and follow it; nothing
        happens without a selection or at the bottom. */
    method MoveDown()
      requires Valid()
      modifies this`records, this`selected
      ensures Valid()
      ensures old(selected).None? || old(selected).value >= |old(records)| - 1 ==>
        records == old(records) && selected == old(selected)
      ensures old(selected).Some? && old(selected).value < |old(records)| - 1 ==>
        records == SwapAt(old(records), old(selected).value + 1, old(selected).value) &&
        selected == Some(old(selected).value + 1)
    {
      if selected.None? || selected.value >= |records| - 1 {
        return;
      }
      var idx := selected.value;
      SwapAtShape(records, idx + 1, idx);
      records := records[idx + 1 := records[idx]][idx := records[idx + 1]];
      RefreshTree(Some(idx + 1));
    }

    /** `clear_all`: no records, no selection, preview cleared. */
    method ClearAll()
      requires Valid()
      modifies this`records, this`selected
      ensures Valid() && records == [] && selected == None
    {
      records := [];
      RefreshTree(None);
    }
  }
}
