/** Writing the output PDF: `convert_to_pdf` of the images tab and `merge_pdf` of the
    merge tab. Image decoding, PDF parsing and file writing are given as functions: what
    is modelled is which sources are opened, in which order, what lands on each output
    page, and when the output file is written. */
module Export {
  import opened Wrappers
  import opened Pages
  import Letterbox
  import Sources

  // ---------------- normalize_image_for_pdf ----------------

  /** The PIL modes the dispatch distinguishes; every other mode is `OtherMode`. */
  datatype Mode = RGB | RGBA | LA | P | OtherMode(name: string)

  /** A decoded image: its mode, size, EXIF orientation tag (0 when absent), and whether
      its pixels have been composited onto a white background. */
  datatype Picture = Picture(mode: Mode, size: Letterbox.Size, orientation: nat, onWhite: bool)

  /** The modes the dispatch composites onto white. A `P` image is among them whether or
      not its palette has any transparency. */
  predicate CompositedOnWhite(m: Mode) {
    m == RGBA || m == LA || m == P
  }

  /** `ImageOps.exif_transpose`: orientations 5 to 8 are a transposition or a quarter
      turn, which exchange width and height; the result is upright.
      The `ensures` clauses only read back the body; they are there for the verifier. */
  function ExifTranspose(p: Picture): (r: Picture)
    ensures r.orientation == 1 && r.mode == p.mode && r.onWhite == p.onWhite
    ensures 5 <= p.orientation <= 8 ==> r.size == Letterbox.Size(p.size.h, p.size.w)
    ensures !(5 <= p.orientation <= 8) ==> r.size == p.size
  {
    if 5 <= p.orientation <= 8 then p.(size := Letterbox.Size(p.size.h, p.size.w), orientation := 1)
    else p.(orientation := 1)
  }

  /** `normalize_image_for_pdf`: upright it, then composite RGBA, LA and P images onto a
      white canvas of the same size, and convert anything else to RGB. */
  function Normalize(p: Picture): (r: Picture)
  {
    var u := ExifTranspose(p);
    if u.mode == RGBA || u.mode == LA then u.(mode := RGB, onWhite := true)
    else if u.mode == P then u.(mode := RGB, onWhite := true)
    else u.(mode := RGB)
  }

  /** The result is always an upright RGB image; it is on white exactly when the source
      had a transparent mode (or already was), and only EXIF orientations 5 to 8 exchange
      its sides. */
  lemma NormalizeShape(p: Picture)
    ensures Normalize(p).mode == RGB && Normalize(p).orientation == 1
    ensures Normalize(p).onWhite <==> CompositedOnWhite(p.mode) || p.onWhite
    ensures 5 <= p.orientation <= 8 ==> Normalize(p).size == Letterbox.Size(p.size.h, p.size.w)
    ensures !(5 <= p.orientation <= 8) ==> Normalize(p).size == p.size
  {
  }

  /** Normalising an already normalised image changes nothing. */
  lemma NormalizeIdempotent(p: Picture)
    ensures Normalize(Normalize(p)) == Normalize(p)
  {
    NormalizeShape(p);
  }

  // ---------------- what the export touches ----------------

  /** The observable side effects of an export: sources opened and the output written. */
  datatype IoEvent = OpenSource(path: string) | WriteOutput(dest: string)

  /** How an export ends: the empty-list warning, a cancelled save dialog (`out` empty),
      the error dialog for any exception, or the output written with these pages. */
  datatype ExportOutcome<Pg> = NothingToExport | Cancelled | Failed | Written(dest: string, pages: seq<Pg>)

  /** One `OpenSource` event per path, in order.
      The `ensures` clauses only read back the body; they are there for the verifier. */
  function OpenEvents(paths: seq<string>): (r: seq<IoEvent>)
    ensures |r| == |paths|
    ensures forall k :: 0 <= k < |paths| ==> r[k] == OpenSource(paths[k])
  {
    seq(|paths|, k requires 0 <= k < |paths| => OpenSource(paths[k]))
  }

  /** The source path of every record, in order.
      The `ensures` clauses only read back the body; they are there for the verifier. */
  function PathsOf(records: seq<PageEntry>): (r: seq<string>)
    ensures |r| == |records|
    ensures forall k :: 0 <= k < |records| ==> r[k] == records[k].path
  {
    seq(|records|, k requires 0 <= k < |records| => records[k].path)
  }

  lemma PathsOfSnoc(records: seq<PageEntry>, e: PageEntry)
    ensures PathsOf(records + [e]) == PathsOf(records) + [e.path]
  {
  }

  // ---------------- convert_to_pdf ----------------

  /** Where the loading loop of `convert_to_pdf` stands: the paths opened so far, the
      normalised images, and whether every open succeeded. */
  datatype ConvertState = ConvertState(openedPaths: seq<string>, pictures: seq<Picture>, ok: bool)

  /** One record of the loading loop: open its source and normalise the image; a source
      that does not open raises. A PDF page entry has no `"path"` key, so reading it
      raises before anything is opened. */
  function ConvertStep(st: ConvertState, e: PageEntry, load: string -> Option<Picture>): ConvertState {
    if !st.ok then st
    else if e.PdfPage? then st.(ok := false)
    else match load(e.path)
      case None => st.(openedPaths := st.openedPaths + [e.path], ok := false)
      case Some(pic) => st.(openedPaths := st.openedPaths + [e.path], pictures := st.pictures + [Normalize(pic)])
  }

  /** The loading loop over `records`; it stops at the first source that does not open. */
  function ConvertRun(records: seq<PageEntry>, load: string -> Option<Picture>): ConvertState
  {
    if records == [] then ConvertState([], [], true)
    else ConvertStep(ConvertRun(records[..|records| - 1], load), records[|records| - 1], load)
  }

  lemma ConvertRunStep(records: seq<PageEntry>, i: nat, load: string -> Option<Picture>)
    requires i < |records|
    ensures ConvertRun(records[..i + 1], load) == ConvertStep(ConvertRun(records[..i], load), records[i], load)
  {
    assert records[..i + 1][..i] == records[..i];
  }

  /** The loading loop succeeds exactly when every record is an image entry whose source
      opens. */
  lemma {:induction false} ConvertRunOk(records: seq<PageEntry>, load: string -> Option<Picture>)
    ensures ConvertRun(records, load).ok <==>
      forall k :: 0 <= k < |records| ==> records[k].ImagePage? && load(records[k].path).Some?
  {
    if records != [] {
      var init := records[..|records| - 1];
      ConvertRunOk(init, load);
      assert forall k :: 0 <= k < |init| ==> init[k] == records[k];
    }
  }

  /** The loop opens the record sources in order, and picture `k` is record `k`'s image
      normalised. When it succeeds it opened every source once. */
  lemma {:induction false} ConvertRunShape(records: seq<PageEntry>, load: string -> Option<Picture>)
    ensures var st := ConvertRun(records, load);
      |st.openedPaths| <= |records| && |st.pictures| <= |st.openedPaths| &&
      (forall k :: 0 <= k < |st.openedPaths| ==> st.openedPaths[k] == records[k].path) &&
      (forall k :: 0 <= k < |st.pictures| ==>
         records[k].ImagePage? && load(records[k].path).Some? &&
         st.pictures[k] == Normalize(load(records[k].path).value))
    ensures var st := ConvertRun(records, load);
      st.ok ==> |st.openedPaths| == |records| && |st.pictures| == |records|
  {
    if records != [] {
      var init := records[..|records| - 1];
      ConvertRunShape(init, load);
      assert forall k :: 0 <= k < |init| ==> init[k] == records[k];
    }
  }

  /** When the loop fails, it opened the sources up to and including the first that does
      not open, or it stopped without opening anything at the first PDF page entry. */
  lemma {:induction false} ConvertRunFailure(records: seq<PageEntry>, load: string -> Option<Picture>)
    ensures var st := ConvertRun(records, load);
      !st.ok ==>
        (|st.openedPaths| == |st.pictures| + 1 && load(st.openedPaths[|st.openedPaths| - 1]).None?) ||
        (|st.openedPaths| == |st.pictures| < |records| && records[|st.pictures|].PdfPage?)
  {
    if records != [] {
      var init := records[..|records| - 1];
      ConvertRunShape(init, load);
      ConvertRunFailure(init, load);
      var st := ConvertRun(init, load);
      if st.ok && records[|records| - 1].PdfPage? {
        assert |st.pictures| == |init|;
        assert records[|st.pictures|] == records[|records| - 1];
      } else if !st.ok {
        assert records[..|records|][..|init|] == init;
        if |st.openedPaths| == |st.pictures| < |init| {
          assert records[|st.pictures|] == init[|st.pictures|];
        }
      }
    }
  }

  /** `convert_to_pdf`, given the records, the save dialog's answer `dest` (empty when
      cancelled), how each source path decodes, and whether `dest` can be written. */
  method ConvertToPdf(records: seq<PageEntry>, dest: string, load: string -> Option<Picture>,
                      writable: string -> bool)
    returns (outcome: ExportOutcome<Picture>, trace: seq<IoEvent>)
    ensures records == [] ==> outcome == NothingToExport && trace == []
    ensures records != [] && dest == "" ==> outcome == Cancelled && trace == []
    ensures records != [] && dest != "" ==>
      var st := ConvertRun(records, load);
      trace == OpenEvents(st.openedPaths) + (if st.ok then [WriteOutput(dest)] else []) &&
      outcome == (if st.ok && writable(dest) then Written(dest, st.pictures) else Failed)
  {
    if records == [] {
      return NothingToExport, [];
    }
    if dest == "" {
      return Cancelled, [];
    }
    var pictures: seq<Picture> := [];
    var openedPaths: seq<string> := [];
    var i := 0;
    while i < |records|
      invariant 0 <= i <= |records|
      invariant ConvertRun(records[..i], load) == ConvertState(openedPaths, pictures, true)
    {
      var e := records[i];
      ConvertRunStep(records, i, load);
      if e.PdfPage? {
        ConvertRunStops(records, i + 1, load);
        return Failed, OpenEvents(openedPaths);
      }
      var path := e.path;
      openedPaths := openedPaths + [path];
      var im := load(path);
      if im.None? {
        ConvertRunStops(records, i + 1, load);
        return Failed, OpenEvents(openedPaths);
      }
      pictures := pictures + [Normalize(im.value)];
      i := i + 1;
    }
    assert records[..i] == records;
    trace := OpenEvents(openedPaths) + [WriteOutput(dest)];
    if writable(dest) {
      outcome := Written(dest, pictures);
    } else {
      outcome := Failed;
    }
  }

  /** Once the loop has failed, later records change nothing. */
  lemma {:induction false} ConvertRunStops(records: seq<PageEntry>, i: nat, load: string -> Option<Picture>)
    requires i <= |records| && !ConvertRun(records[..i], load).ok
    ensures ConvertRun(records, load) == ConvertRun(records[..i], load)
    decreases |records| - i
  {
    if i < |records| {
      assert records[..i + 1][..i] == records[..i];
      ConvertRunStops(records, i + 1, load);
    } else {
      assert records[..i] == records;
    }
  }

  /** All or nothing: the output is written only after every source was opened, and
      then page `k` is record `k`'s image, normalised. */
  lemma ConvertAllOrNothing(records: seq<PageEntry>, load: string -> Option<Picture>)
    ensures ConvertRun(records, load).ok <==>
      forall k :: 0 <= k < |records| ==> records[k].ImagePage? && load(records[k].path).Some?
    ensures var st := ConvertRun(records, load);
      st.ok ==> OpenEvents(st.openedPaths) == OpenEvents(PathsOf(records)) &&
                |st.pictures| == |records| &&
                forall k :: 0 <= k < |records| ==> st.pictures[k] == Normalize(load(records[k].path).value)
  {
    ConvertRunOk(records, load);
    ConvertRunShape(records, load);
    var st := ConvertRun(records, load);
    if st.ok {
      assert st.openedPaths == PathsOf(records);
    }
  }

  // ---------------- merge_pdf ----------------

  /** `cache[path].pages[idx]`: page `idx` of the document at `path`. */
  datatype SourcePage = SourcePage(path: string, pageIdx: nat)

  /** Where the loop of `merge_pdf` stands: the reader cache (path to page count), the
      paths opened in order, the pages handed to the writer, and whether no exception has
      been raised. */
  datatype MergeState = MergeState(cache: map<string, nat>, openedPaths: seq<string>, pages: seq<SourcePage>, ok: bool)

  /** One record of the merge loop: open the source unless cached, then take its page;
      an unreadable source or a missing page raises, and so does a record without a page
      index (the key lookup fails). */
  function MergeStep(st: MergeState, e: PageEntry, docs: string -> Option<nat>): MergeState
  {
    if !st.ok then st
    else if e.ImagePage? then st.(ok := false)
    else if e.path in st.cache then
      if e.pageIdx < st.cache[e.path] then st.(pages := st.pages + [SourcePage(e.path, e.pageIdx)])
      else st.(ok := false)
    else match docs(e.path)
      case None => st.(openedPaths := st.openedPaths + [e.path], ok := false)
      case Some(n) =>
        var st' := st.(cache := st.cache[e.path := n], openedPaths := st.openedPaths + [e.path]);
        if e.pageIdx < n then st'.(pages := st'.pages + [SourcePage(e.path, e.pageIdx)])
        else st'.(ok := false)
  }

  lemma MergeRunStep(records: seq<PageEntry>, i: nat, docs: string -> Option<nat>)
    requires i < |records|
    ensures MergeRun(records[..i + 1], docs) == MergeStep(MergeRun(records[..i], docs), records[i], docs)
  {
    assert records[..i + 1][..i] == records[..i];
  }

  /** The merge loop over `records`. */
  function MergeRun(records: seq<PageEntry>, docs: string -> Option<nat>): MergeState
  {
    if records == [] then MergeState(map[], [], [], true)
    else MergeStep(MergeRun(records[..|records| - 1], docs), records[|records| - 1], docs)
  }

  /** What the loop keeps true: every cached path was opened and has its real page
      count, while no exception has been raised every opened path is cached, no path was
      opened twice, and every page taken exists in its source. */
  ghost predicate MergeInvariant(st: MergeState, docs: string -> Option<nat>) {
    (forall p :: p in st.cache ==> p in st.openedPaths && docs(p) == Some(st.cache[p])) &&
    (st.ok ==> forall p :: p in st.openedPaths ==> p in st.cache) &&
    (forall i, j :: 0 <= i < j < |st.openedPaths| ==> st.openedPaths[i] != st.openedPaths[j]) &&
    (forall k :: 0 <= k < |st.pages| ==>
       st.pages[k].path in st.cache && st.pages[k].pageIdx < st.cache[st.pages[k].path])
  }

  lemma MergeStepInvariant(st: MergeState, e: PageEntry, docs: string -> Option<nat>)
    requires MergeInvariant(st, docs)
    ensures MergeInvariant(MergeStep(st, e, docs), docs)
  {
    if st.ok && e.PdfPage? && e.path !in st.cache {
      var r := MergeStep(st, e, docs);
      assert r.openedPaths == st.openedPaths + [e.path];
      forall i, j | 0 <= i < j < |r.openedPaths| ensures r.openedPaths[i] != r.openedPaths[j] {
        if j == |st.openedPaths| {
          assert r.openedPaths[i] == st.openedPaths[i];
        }
      }
    }
  }

  /** The invariant holds after every prefix of the loop. */
  lemma {:induction false} MergeRunInvariant(records: seq<PageEntry>, docs: string -> Option<nat>)
    ensures MergeInvariant(MergeRun(records, docs), docs)
  {
    if records != [] {
      MergeRunInvariant(records[..|records| - 1], docs);
      MergeStepInvariant(MergeRun(records[..|records| - 1], docs), records[|records| - 1], docs);
    }
  }

  /** Each source is opened at most once per merge: no path occurs twice among the
      opened ones, and only record paths are opened. */
  lemma {:induction false} MergeOpensOnce(records: seq<PageEntry>, docs: string -> Option<nat>)
    ensures var st := MergeRun(records, docs);
      (forall i, j :: 0 <= i < j < |st.openedPaths| ==> st.openedPaths[i] != st.openedPaths[j]) &&
      (forall p :: p in st.openedPaths ==> p in PathsOf(records))
  {
    MergeRunInvariant(records, docs);
    if records != [] {
      var init := records[..|records| - 1];
      MergeOpensOnce(init, docs);
      PathsOfSnoc(init, records[|records| - 1]);
      assert init + [records[|records| - 1]] == records;
    }
  }

  /** One step succeeds exactly when the run is still going and the record's page
      exists in its source; it then hands exactly that page to the writer. */
  lemma MergeStepPages(st: MergeState, e: PageEntry, docs: string -> Option<nat>)
    requires MergeInvariant(st, docs)
    ensures MergeStep(st, e, docs).ok <==>
      st.ok && e.PdfPage? && docs(e.path).Some? && e.pageIdx < docs(e.path).value
    ensures MergeStep(st, e, docs).pages ==
      st.pages + (if MergeStep(st, e, docs).ok then [SourcePage(e.path, e.pageIdx)] else [])
  {
  }

  /** The merge succeeds exactly when every record's source opens and has the page the
      record names. */
  lemma {:induction false} MergeRunOk(records: seq<PageEntry>, docs: string -> Option<nat>)
    ensures MergeRun(records, docs).ok <==>
      forall k :: 0 <= k < |records| ==>
        records[k].PdfPage? && docs(records[k].path).Some? && records[k].pageIdx < docs(records[k].path).value
  {
    if records != [] {
      var init := records[..|records| - 1];
      MergeRunOk(init, docs);
      MergeRunInvariant(init, docs);
      MergeStepPages(MergeRun(init, docs), records[|records| - 1], docs);
      assert forall k :: 0 <= k < |init| ==> init[k] == records[k];
    }
  }

  /** Page `k` handed to the writer is page `records[k].pageIdx` of `records[k]`'s
      source; a merge that succeeds hands over one page per record. */
  lemma {:induction false} MergeRunPages(records: seq<PageEntry>, docs: string -> Option<nat>)
    ensures var st := MergeRun(records, docs);
      |st.pages| <= |records| &&
      (forall k :: 0 <= k < |st.pages| ==>
         records[k].PdfPage? && st.pages[k] == SourcePage(records[k].path, records[k].pageIdx)) &&
      (st.ok ==> |st.pages| == |records|)
  {
    if records != [] {
      var init := records[..|records| - 1];
      var e := records[|records| - 1];
      var st := MergeRun(init, docs);
      assert |st.pages| <= |init| &&
        (forall k :: 0 <= k < |st.pages| ==>
           init[k].PdfPage? && st.pages[k] == SourcePage(init[k].path, init[k].pageIdx)) &&
        (st.ok ==> |st.pages| == |init|) by {
        MergeRunPages(init, docs);
      }
      assert MergeRun(records, docs).pages ==
        st.pages + (if MergeRun(records, docs).ok then [SourcePage(e.path, e.pageIdx)] else []) &&
        (MergeRun(records, docs).ok ==> st.ok && e.PdfPage?) by {
        MergeRunInvariant(init, docs);
        MergeStepPages(st, e, docs);
      }
      assert forall k :: 0 <= k < |init| ==> init[k] == records[k];
    }
  }

  /** Keys under the identity are the paths themselves. */
  function Identity(p: string): string {
    p
  }

  lemma IdentityKeys(xs: seq<string>, x: string)
    ensures x in Sources.Keys(Identity, xs) <==> x in xs
  {
    if x in xs {
      assert Identity(x) == x;
    }
  }

  /** A successful step opens the record's source exactly when it was not opened yet. */
  lemma MergeStepOpens(st: MergeState, e: PageEntry, docs: string -> Option<nat>)
    requires MergeInvariant(st, docs) && MergeStep(st, e, docs).ok
    ensures MergeStep(st, e, docs).openedPaths ==
      if e.path in st.openedPaths then st.openedPaths else st.openedPaths + [e.path]
  {
  }

  /** A merge that succeeds opens every distinct source path exactly once, in the order
      of first use. */
  lemma {:induction false} MergeOpensDistinctPaths(records: seq<PageEntry>, docs: string -> Option<nat>)
    ensures MergeRun(records, docs).ok ==>
      MergeRun(records, docs).openedPaths == Sources.Dedup(Identity, PathsOf(records))
  {
    if records != [] && MergeRun(records, docs).ok {
      var init := records[..|records| - 1];
      var e := records[|records| - 1];
      var st := MergeRun(init, docs);
      var ps := PathsOf(init);
      assert MergeStep(st, e, docs).ok;
      assert st.ok;
      assert st.openedPaths == Sources.Dedup(Identity, ps) by {
        MergeOpensDistinctPaths(init, docs);
      }
      assert MergeRun(records, docs).openedPaths ==
        if e.path in st.openedPaths then st.openedPaths else st.openedPaths + [e.path] by {
        MergeRunInvariant(init, docs);
        MergeStepOpens(st, e, docs);
      }
      assert PathsOf(records) == ps + [e.path] by {
        PathsOfSnoc(init, e);
        assert init + [e] == records;
      }
      assert e.path in st.openedPaths <==> e.path in Sources.Keys(Identity, ps) by {
        Sources.DedupKeys(Identity, ps);
        IdentityKeys(ps, e.path);
        IdentityKeys(st.openedPaths, e.path);
      }
      Sources.DedupSnoc(Identity, ps, e.path);
    }
  }

  /** Once the loop has failed, later records change nothing. */
  lemma {:induction false} MergeRunStops(records: seq<PageEntry>, i: nat, docs: string -> Option<nat>)
    requires i <= |records| && !MergeRun(records[..i], docs).ok
    ensures MergeRun(records, docs) == MergeRun(records[..i], docs)
    decreases |records| - i
  {
    if i < |records| {
      assert records[..i + 1][..i] == records[..i];
      MergeRunStops(records, i + 1, docs);
    } else {
      assert records[..i] == records;
    }
  }

  /** `merge_pdf`, given the merge tab's records, the save dialog's answer `dest` (empty
      when cancelled), the page count of each readable source, and whether `dest` can be
      written. */
  method MergePdf(records: seq<PageEntry>, dest: string, docs: string -> Option<nat>,
                  writable: string -> bool)
    returns (outcome: ExportOutcome<SourcePage>, trace: seq<IoEvent>)
    ensures records == [] ==> outcome == NothingToExport && trace == []
    ensures records != [] && dest == "" ==> outcome == Cancelled && trace == []
    ensures records != [] && dest != "" ==>
      var st := MergeRun(records, docs);
      trace == OpenEvents(st.openedPaths) + (if st.ok then [WriteOutput(dest)] else []) &&
      outcome == (if st.ok && writable(dest) then Written(dest, st.pages) else Failed)
  {
    if records == [] {
      return NothingToExport, [];
    }
    if dest == "" {
      return Cancelled, [];
    }
    var cache: map<string, nat> := map[];
    var openedPaths: seq<string> := [];
    var pages: seq<SourcePage> := [];
    var i := 0;
    while i < |records|
      invariant 0 <= i <= |records|
      invariant MergeRun(records[..i], docs) == MergeState(cache, openedPaths, pages, true)
    {
      var rec := records[i];
      MergeRunStep(records, i, docs);
      if rec.ImagePage? {
        MergeRunStops(records, i + 1, docs);
        return Failed, OpenEvents(openedPaths);
      }
      if rec.path !in cache {
        openedPaths := openedPaths + [rec.path];
        var reader := docs(rec.path);
        if reader.None? {
          MergeRunStops(records, i + 1, docs);
          return Failed, OpenEvents(openedPaths);
        }
        cache := cache[rec.path := reader.value];
      }
      if rec.pageIdx >= cache[rec.path] {
        MergeRunStops(records, i + 1, docs);
        return Failed, OpenEvents(openedPaths);
      }
      pages := pages + [SourcePage(rec.path, rec.pageIdx)];
      i := i + 1;
    }
    assert records[..i] == records;
    trace := OpenEvents(openedPaths) + [WriteOutput(dest)];
    if writable(dest) {
      outcome := Written(dest, pages);
    } else {
      outcome := Failed;
    }
  }
}
