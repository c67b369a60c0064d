/** Source resolution: turning a drop event or a list of chosen paths into the ordered,
    de-duplicated list of files a tab will try to add (`parse_dropped_files`, `collect_files`). */
module Sources {
  import opened Wrappers
  import opened Text

  // ---------------- parse_dropped_files ----------------

  /** Removes one pair of enclosing braces, as `p[1:-1]` does when `p` starts with '{'
      and ends with '}' (which a one-character string cannot do). */
  function Unbrace(p: string): string {
    if |p| >= 1 && p[0] == '{' && p[|p| - 1] == '}' then p[1..|p| - 1] else p
  }

  /** One token as the drop handler cleans it: stripped, then un-braced. */
  function CleanToken(p: string): string {
    Unbrace(Strip(p))
  }

  /** A cleaned token is the stripped token, or exactly what stood between the outer
      braces of the stripped token. */
  lemma CleanTokenShape(p: string)
    ensures Strip(p) == CleanToken(p) || Strip(p) == "{" + CleanToken(p) + "}"
    ensures Strip(p) == "{" + CleanToken(p) + "}" <==>
      |Strip(p)| >= 2 && Strip(p)[0] == '{' && Strip(p)[|Strip(p)| - 1] == '}'
  {
    var s := Strip(p);
    if |s| >= 2 && s[0] == '{' && s[|s| - 1] == '}' {
      assert s == "{" + s[1..|s| - 1] + "}";
    }
  }

  /** The tokens the handler keeps: each cleaned, empty ones dropped, order kept. */
  function DroppedTokens(paths: seq<string>): seq<string> {
    if paths == [] then []
    else
      var kept := DroppedTokens(paths[..|paths| - 1]);
      var t := CleanToken(paths[|paths| - 1]);
      if t == "" then kept else kept + [t]
  }

  /** The token list `tk.splitlist(data)` gives, or `[data]` when it raises. */
  function SplitTokens(data: string, split: Option<seq<string>>): seq<string> {
    match split
    case Some(tokens) => tokens
    case None => [data]
  }

  /** `parse_dropped_files`: `split` stands for the result of `widget.tk.splitlist(data)`,
      `None` when that call raises. */
  method ParseDroppedFiles(data: string, split: Option<seq<string>>) returns (out: seq<string>)
    ensures out == DroppedTokens(SplitTokens(data, split))
    ensures forall k :: 0 <= k < |out| ==> out[k] != ""
  {
    var paths := SplitTokens(data, split);
    out := [];
    var i := 0;
    while i < |paths|
      invariant 0 <= i <= |paths|
      invariant out == DroppedTokens(paths[..i])
    {
      var p := CleanToken(paths[i]);
      DroppedTokensStep(paths, i);
      if p != "" {
        out := out + [p];
      }
      i := i + 1;
    }
    assert out == DroppedTokens(paths) by {
      assert paths[..i] == paths;
    }
    DroppedTokensNonEmpty(paths);
  }

  lemma DroppedTokensStep(paths: seq<string>, i: nat)
    requires i < |paths|
    ensures DroppedTokens(paths[..i + 1]) ==
      if CleanToken(paths[i]) == "" then DroppedTokens(paths[..i]) else DroppedTokens(paths[..i]) + [CleanToken(paths[i])]
  {
    assert paths[..i + 1] == paths[..i] + [paths[i]];
    DroppedTokensSnoc(paths[..i], paths[i]);
  }

  lemma DroppedTokensSnoc(paths: seq<string>, p: string)
    ensures DroppedTokens(paths + [p]) ==
      if CleanToken(p) == "" then DroppedTokens(paths) else DroppedTokens(paths) + [CleanToken(p)]
  {
    assert (paths + [p])[..|paths|] == paths;
  }

  /** No kept token is empty. */
  lemma {:induction false} DroppedTokensNonEmpty(paths: seq<string>)
    ensures forall k :: 0 <= k < |DroppedTokens(paths)| ==> DroppedTokens(paths)[k] != ""
  {
    if paths != [] {
      DroppedTokensNonEmpty(paths[..|paths| - 1]);
    }
  }

  /** Parsing is token by token and keeps order: the tokens of two lists one after the
      other are those of the first list followed by those of the second. */
  lemma {:induction false} DroppedTokensAppend(a: seq<string>, b: seq<string>)
    ensures DroppedTokens(a + b) == DroppedTokens(a) + DroppedTokens(b)
    decreases |b|
  {
    if b == [] {
      assert a + b == a;
    } else {
      var b' := b[..|b| - 1];
      assert (a + b)[..|a + b| - 1] == a + b';
      DroppedTokensAppend(a, b');
    }
  }

  /** A single token is kept exactly when it is not empty once cleaned. */
  lemma DroppedTokensSingle(p: string)
    ensures DroppedTokens([p]) == if CleanToken(p) == "" then [] else [CleanToken(p)]
  {
    assert [p][..0] == [];
  }

  /** A braced path keeps its inner text, spaces included, even at its ends: stripping
      happens outside the braces, so Tk's quoting of a name with spaces survives the
      handler. */
  lemma BracedPathKept(inner: string)
    requires inner != ""
    ensures DroppedTokens(["  {" + inner + "} "]) == [inner]
  {
    var s := "  {" + inner + "} ";
    assert LeadingSpaces(s) == 2 by {
      assert s[0] == ' ' && s[1] == ' ' && s[2] == '{';
      assert s[2..][0] == '{';
      assert LeadingSpaces(s[2..]) == 0;
      assert s[1..][1..] == s[2..];
    }
    var t := s[2..];
    assert t == "{" + inner + "} ";
    assert TrailingSpaces(t) == 1 by {
      assert t[..|t| - 1] == "{" + inner + "}";
    }
    assert Strip(s) == "{" + inner + "}";
    assert ("{" + inner + "}")[1..|inner| + 1] == inner;
    DroppedTokensSingle(s);
  }

  // ---------------- collect_files ----------------

  /** The filesystem as `collect_files` sees it. `walk(d)` lists the file paths
      `os.path.join(root, fn)` that `os.walk(d)` yields, in walk order; `canon(p)` is
      `os.path.normcase(os.path.abspath(p))`. */
  datatype FileSystem = FileSystem(
    isDir: string -> bool,
    isFile: string -> bool,
    walk: string -> seq<string>,
    canon: string -> string)

  /** `{e.lower() for e in allowed_exts}` */
  function AllowedSet(exts: seq<string>): set<string> {
    set e | e in exts :: Lower(e)
  }

  predicate HasAllowedExt(p: string, allowed: set<string>) {
    Lower(Ext(p)) in allowed
  }

  /** The extension test ignores ASCII case on both sides: a path passes exactly when its
      extension equals one of the listed extensions up to case. */
  lemma AllowedIgnoringCase(p: string, exts: seq<string>)
    ensures HasAllowedExt(p, AllowedSet(exts)) <==> exists e :: e in exts && EqualIgnoringAsciiCase(Ext(p), e)
  {
    if HasAllowedExt(p, AllowedSet(exts)) {
      var e :| e in exts && Lower(e) == Lower(Ext(p));
      LowerEqualIgnoringCase(Ext(p), e);
    }
    if e :| e in exts && EqualIgnoringAsciiCase(Ext(p), e) {
      LowerEqualIgnoringCase(Ext(p), e);
      assert Lower(e) in AllowedSet(exts);
    }
  }

  /** The files of a walk whose extension is allowed, in walk order. */
  function FilterAllowed(files: seq<string>, allowed: set<string>): seq<string>
  {
    if files == [] then []
    else
      var kept := FilterAllowed(files[..|files| - 1], allowed);
      var f := files[|files| - 1];
      if HasAllowedExt(f, allowed) then kept + [f] else kept
  }

  lemma FilterAllowedStep(files: seq<string>, j: nat, allowed: set<string>)
    requires j < |files|
    ensures FilterAllowed(files[..j + 1], allowed) ==
      if HasAllowedExt(files[j], allowed) then FilterAllowed(files[..j], allowed) + [files[j]]
      else FilterAllowed(files[..j], allowed)
  {
    assert files[..j + 1][..j] == files[..j];
  }

  /** What one given path contributes: every allowed file under a directory, the path
      itself if it is an allowed file, nothing otherwise. */
  function PathCandidates(p: string, allowed: set<string>, fs: FileSystem): seq<string>
  {
    if fs.isDir(p) then FilterAllowed(fs.walk(p), allowed)
    else if fs.isFile(p) && HasAllowedExt(p, allowed) then [p]
    else []
  }

  /** The `results` list of `collect_files`, before duplicates are removed. */
  function Candidates(paths: seq<string>, allowed: set<string>, fs: FileSystem): seq<string>
  {
    if paths == [] then []
    else Candidates(paths[..|paths| - 1], allowed, fs) + PathCandidates(paths[|paths| - 1], allowed, fs)
  }

  lemma CandidatesStep(paths: seq<string>, i: nat, allowed: set<string>, fs: FileSystem)
    requires i < |paths|
    ensures Candidates(paths[..i + 1], allowed, fs) == Candidates(paths[..i], allowed, fs) + PathCandidates(paths[i], allowed, fs)
  {
    assert paths[..i + 1] == paths[..i] + [paths[i]];
    CandidatesSnoc(paths[..i], paths[i], allowed, fs);
  }

  lemma CandidatesSnoc(paths: seq<string>, p: string, allowed: set<string>, fs: FileSystem)
    ensures Candidates(paths + [p], allowed, fs) == Candidates(paths, allowed, fs) + PathCandidates(p, allowed, fs)
  {
    assert (paths + [p])[..|paths|] == paths;
  }

  /** Only files with an allowed extension survive the filter, and they come from the walk. */
  lemma {:induction false} FilterAllowedSound(files: seq<string>, allowed: set<string>)
    ensures forall k :: 0 <= k < |FilterAllowed(files, allowed)| ==>
      HasAllowedExt(FilterAllowed(files, allowed)[k], allowed) && FilterAllowed(files, allowed)[k] in files
  {
    if files != [] {
      var init := files[..|files| - 1];
      var f := files[|files| - 1];
      FilterAllowedSound(init, allowed);
      var kept := FilterAllowed(init, allowed);
      var r := FilterAllowed(files, allowed);
      forall k | 0 <= k < |r| ensures HasAllowedExt(r[k], allowed) && r[k] in files {
        if k < |kept| {
          assert r[k] == kept[k];
          assert kept[k] in init;
        } else {
          assert r[k] == f;
        }
      }
    }
  }

  /** Every candidate has an allowed extension. */
  lemma {:induction false} CandidatesAllowed(paths: seq<string>, allowed: set<string>, fs: FileSystem)
    ensures forall k :: 0 <= k < |Candidates(paths, allowed, fs)| ==>
      HasAllowedExt(Candidates(paths, allowed, fs)[k], allowed)
  {
    if paths != [] {
      CandidatesAllowed(paths[..|paths| - 1], allowed, fs);
      var p := paths[|paths| - 1];
      var front := Candidates(paths[..|paths| - 1], allowed, fs);
      var back := PathCandidates(p, allowed, fs);
      if fs.isDir(p) {
        FilterAllowedSound(fs.walk(p), allowed);
      }
      assert forall k :: 0 <= k < |back| ==> HasAllowedExt(back[k], allowed);
      var r := front + back;
      forall k | 0 <= k < |r| ensures HasAllowedExt(r[k], allowed) {
        if k < |front| {
          assert r[k] == front[k];
        } else {
          assert r[k] == back[k - |front|];
        }
      }
    }
  }

  /** The keys already seen among `xs`. */
  function Keys(canon: string -> string, xs: seq<string>): set<string> {
    set x | x in xs :: canon(x)
  }

  /** Removes every entry whose key an earlier entry has, keeping the original strings
      of the first occurrences in their order. */
  function Dedup(canon: string -> string, xs: seq<string>): seq<string> {
    if xs == [] then []
    else
      var init := xs[..|xs| - 1];
      var x := xs[|xs| - 1];
      if canon(x) in Keys(canon, init) then Dedup(canon, init) else Dedup(canon, init) + [x]
  }

  /** `xs[j]` is the first entry of `xs` with its key. */
  predicate IsFirstSeen(canon: string -> string, xs: seq<string>, j: nat)
    requires j < |xs|
  {
    forall i :: 0 <= i < j ==> canon(xs[i]) != canon(xs[j])
  }

  /** `idx` picks `out` out of `xs` at strictly increasing positions, each of them the
      first occurrence of its key. */
  predicate FirstSeenWitness(canon: string -> string, xs: seq<string>, out: seq<string>, idx: seq<nat>) {
    |idx| == |out| &&
    (forall k :: 0 <= k < |idx| ==> idx[k] < |xs| && out[k] == xs[idx[k]] && IsFirstSeen(canon, xs, idx[k])) &&
    (forall a, b :: 0 <= a < b < |idx| ==> idx[a] < idx[b])
  }

  lemma DedupStep(canon: string -> string, xs: seq<string>, k: nat)
    requires k < |xs|
    ensures Keys(canon, xs[..k + 1]) == Keys(canon, xs[..k]) + {canon(xs[k])}
    ensures Dedup(canon, xs[..k + 1]) ==
      if canon(xs[k]) in Keys(canon, xs[..k]) then Dedup(canon, xs[..k]) else Dedup(canon, xs[..k]) + [xs[k]]
  {
    assert xs[..k + 1] == xs[..k] + [xs[k]];
    KeysSnoc(canon, xs[..k], xs[k]);
    DedupSnoc(canon, xs[..k], xs[k]);
  }

  lemma DedupSnoc(canon: string -> string, xs: seq<string>, x: string)
    ensures Dedup(canon, xs + [x]) ==
      if canon(x) in Keys(canon, xs) then Dedup(canon, xs) else Dedup(canon, xs) + [x]
  {
    assert (xs + [x])[..|xs|] == xs;
  }

  lemma KeysSnoc(canon: string -> string, xs: seq<string>, x: string)
    ensures Keys(canon, xs + [x]) == Keys(canon, xs) + {canon(x)}
  {
    assert forall y :: y in xs + [x] <==> y in xs || y == x;
  }

  /** The result keeps every key of the input, and no other. */
  lemma {:induction false} DedupKeys(canon: string -> string, xs: seq<string>)
    ensures Keys(canon, Dedup(canon, xs)) == Keys(canon, xs)
  {
    if xs != [] {
      var init := xs[..|xs| - 1];
      var x := xs[|xs| - 1];
      assert xs == init + [x];
      DedupKeys(canon, init);
      KeysSnoc(canon, init, x);
      if canon(x) !in Keys(canon, init) {
        KeysSnoc(canon, Dedup(canon, init), x);
      }
    }
  }

  /** No two entries of the result share a key. */
  lemma {:induction false} DedupDistinct(canon: string -> string, xs: seq<string>)
    ensures var d := Dedup(canon, xs);
      forall a, b :: 0 <= a < b < |d| ==> canon(d[a]) != canon(d[b])
  {
    if xs != [] {
      var init := xs[..|xs| - 1];
      var x := xs[|xs| - 1];
      DedupDistinct(canon, init);
      if canon(x) !in Keys(canon, init) {
        DedupKeys(canon, init);
        var d := Dedup(canon, init);
        forall a | 0 <= a < |d| ensures canon(d[a]) != canon(x) {
          assert canon(d[a]) in Keys(canon, d);
        }
      }
    }
  }

  /** The result is an order-preserving subsequence of the input made of first occurrences. */
  lemma {:induction false} DedupFirstSeen(canon: string -> string, xs: seq<string>)
    ensures exists idx :: FirstSeenWitness(canon, xs, Dedup(canon, xs), idx)
  {
    if xs == [] {
      var none: seq<nat> := [];
      assert FirstSeenWitness(canon, xs, Dedup(canon, xs), none);
    } else {
      var init := xs[..|xs| - 1];
      var x := xs[|xs| - 1];
      DedupFirstSeen(canon, init);
      var idx: seq<nat> :| FirstSeenWitness(canon, init, Dedup(canon, init), idx);
      forall k | 0 <= k < |idx| ensures IsFirstSeen(canon, xs, idx[k]) {
        assert IsFirstSeen(canon, init, idx[k]);
      }
      if canon(x) in Keys(canon, init) {
        assert FirstSeenWitness(canon, xs, Dedup(canon, xs), idx);
      } else {
        assert IsFirstSeen(canon, xs, |init|) by {
          forall i | 0 <= i < |init| ensures canon(xs[i]) != canon(x) {
            assert xs[i] == init[i];
          }
        }
        var idx' := idx + [|init|];
        assert Dedup(canon, xs) == Dedup(canon, init) + [x];
        assert FirstSeenWitness(canon, xs, Dedup(canon, xs), idx');
      }
    }
  }

  /** `collect_files`. The first loop gathers the allowed files of every given path, the
      second keeps the first path seen for each normalised key. */
  method CollectFiles(paths: seq<string>, allowedExts: seq<string>, fs: FileSystem) returns (unique: seq<string>)
    ensures unique == Dedup(fs.canon, Candidates(paths, AllowedSet(allowedExts), fs))
    ensures forall k :: 0 <= k < |unique| ==> Lower(Ext(unique[k])) in AllowedSet(allowedExts)
    ensures forall a, b :: 0 <= a < b < |unique| ==> fs.canon(unique[a]) != fs.canon(unique[b])
  {
    var allowed := AllowedSet(allowedExts);
    var results := GatherCandidates(paths, allowed, fs);
    unique := RemoveDuplicates(results, fs.canon);
    CollectedProperties(paths, allowed, fs);
  }

  /** The first loop of `collect_files`: walk directories, test extensions. */
  method GatherCandidates(paths: seq<string>, allowed: set<string>, fs: FileSystem) returns (results: seq<string>)
    ensures results == Candidates(paths, allowed, fs)
  {
    results := [];
    var i := 0;
    assert paths[..0] == [];
    while i < |paths|
      invariant 0 <= i <= |paths|
      invariant results == Candidates(paths[..i], allowed, fs)
    {
      var p := paths[i];
      var found := PathFiles(p, allowed, fs);
      CandidatesStep(paths, i, allowed, fs);
      results := results + found;
      i := i + 1;
    }
    assert paths[..i] == paths;
  }

  /** One iteration of the first loop of `collect_files`: a directory is walked, a file
      is taken if its extension is allowed, anything else is skipped. */
  method PathFiles(p: string, allowed: set<string>, fs: FileSystem) returns (found: seq<string>)
    ensures found == PathCandidates(p, allowed, fs)
  {
    found := [];
    if fs.isDir(p) {
      found := FilterWalk(fs.walk(p), allowed);
    } else if fs.isFile(p) && HasAllowedExt(p, allowed) {
      found := [p];
    }
  }

  /** The inner loop of `collect_files` over the files `os.walk` yields under a directory. */
  method FilterWalk(files: seq<string>, allowed: set<string>) returns (found: seq<string>)
    ensures found == FilterAllowed(files, allowed)
  {
    found := [];
    var j := 0;
    while j < |files|
      invariant 0 <= j <= |files|
      invariant found == FilterAllowed(files[..j], allowed)
    {
      FilterAllowedStep(files, j, allowed);
      if HasAllowedExt(files[j], allowed) {
        found := found + [files[j]];
      }
      j := j + 1;
    }
    assert files[..j] == files;
  }

  /** The second loop of `collect_files`: a `seen` set of normalised keys. */
  method RemoveDuplicates(results: seq<string>, canon: string -> string) returns (unique: seq<string>)
    ensures unique == Dedup(canon, results)
  {
    var seen: set<string> := {};
    unique := [];
    var k := 0;
    while k < |results|
      invariant 0 <= k <= |results|
      invariant seen == Keys(canon, results[..k])
      invariant unique == Dedup(canon, results[..k])
    {
      var norm := canon(results[k]);
      DedupStep(canon, results, k);
      if norm !in seen {
        seen := seen + {norm};
        unique := unique + [results[k]];
      }
      k := k + 1;
    }
    assert results[..k] == results;
  }

  /** What `collect_files` promises: allowed extensions only, one path per normalised
      key, and every kept path the first candidate with its key, in candidate order. */
  lemma CollectedProperties(paths: seq<string>, allowed: set<string>, fs: FileSystem)
    ensures var results := Candidates(paths, allowed, fs);
      var unique := Dedup(fs.canon, results);
      (forall k :: 0 <= k < |unique| ==> HasAllowedExt(unique[k], allowed)) &&
      (forall a, b :: 0 <= a < b < |unique| ==> fs.canon(unique[a]) != fs.canon(unique[b])) &&
      Keys(fs.canon, unique) == Keys(fs.canon, results) &&
      (exists idx :: FirstSeenWitness(fs.canon, results, unique, idx))
  {
    var results := Candidates(paths, allowed, fs);
    var unique := Dedup(fs.canon, results);
    DedupFirstSeen(fs.canon, results);
    CandidatesAllowed(paths, allowed, fs);
    var idx: seq<nat> :| FirstSeenWitness(fs.canon, results, unique, idx);
    forall k | 0 <= k < |unique| ensures HasAllowedExt(unique[k], allowed) {
      assert unique[k] == results[idx[k]];
      assert HasAllowedExt(results[idx[k]], allowed);
    }
    DedupDistinct(fs.canon, results);
    DedupKeys(fs.canon, results);
  }

  /** Passing the same paths twice collects nothing more than passing them once. */
  lemma {:induction false} CollectRepeatIdempotent(paths: seq<string>, allowed: set<string>, fs: FileSystem)
    ensures Dedup(fs.canon, Candidates(paths + paths, allowed, fs)) == Dedup(fs.canon, Candidates(paths, allowed, fs))
  {
    CandidatesAppend(paths, paths, allowed, fs);
    var c := Candidates(paths, allowed, fs);
    DedupAbsorbs(fs.canon, c, c);
  }

  lemma {:induction false} CandidatesAppend(a: seq<string>, b: seq<string>, allowed: set<string>, fs: FileSystem)
    ensures Candidates(a + b, allowed, fs) == Candidates(a, allowed, fs) + Candidates(b, allowed, fs)
    decreases |b|
  {
    if b == [] {
      assert a + b == a;
    } else {
      var b' := b[..|b| - 1];
      assert (a + b)[..|a + b| - 1] == a + b';
      assert (a + b)[|a + b| - 1] == b[|b| - 1];
      CandidatesAppend(a, b', allowed, fs);
      assert Candidates(a + b, allowed, fs) == Candidates(a + b', allowed, fs) + PathCandidates(b[|b| - 1], allowed, fs);
    }
  }

  /** Appending entries whose keys were all seen already leaves the result unchanged. */
  lemma {:induction false} DedupAbsorbs(canon: string -> string, xs: seq<string>, ys: seq<string>)
    requires forall y :: y in ys ==> canon(y) in Keys(canon, xs)
    ensures Dedup(canon, xs + ys) == Dedup(canon, xs)
    decreases |ys|
  {
    if ys == [] {
      assert xs + ys == xs;
    } else {
      var ys' := ys[..|ys| - 1];
      var y := ys[|ys| - 1];
      assert (xs + ys)[..|xs + ys| - 1] == xs + ys';
      DedupAbsorbs(canon, xs, ys');
      assert canon(y) in Keys(canon, xs + ys');
    }
  }
}
