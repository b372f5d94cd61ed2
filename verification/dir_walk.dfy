/** Specification of `_walk_dir_for_filetypes`: the files below a directory
    whose names end with one of the given extensions, case-insensitively,
    skipping names that start with an ignored prefix. */
module DirWalk {
  import opened Wrappers
  import opened Text
  import opened Environment

  /** The `ValueError`s raised on bad arguments, in the order they are checked. */
  datatype WalkError = ExtensionsNotAList | NoDirectory | NotAbsolute | NotADirectory

  function LowerAll(xs: seq<string>): seq<string>
  {
    seq(|xs|, i requires 0 <= i < |xs| => Lower(xs[i]))
  }

  /** The lower-cased name starts with one of the (already lower-cased)
      ignore prefixes. */
  predicate Ignored(name: string, ignoreLower: Option<seq<string>>)
  {
    ignoreLower.Some? && exists c :: c in ignoreLower.value && StartsWith(Lower(name), c)
  }

  /** What the innermost loop appends for one file: its joined path once per
      matching extension, unless the name is ignored. */
  function FileHits(root: Path, name: string, extsLower: seq<string>, ignoreLower: Option<seq<string>>): seq<Path>
    decreases |extsLower|
  {
    if extsLower == [] then []
    else
      var n := |extsLower| - 1;
      FileHits(root, name, extsLower[..n], ignoreLower)
        + (if EndsWith(Lower(name), extsLower[n]) && !Ignored(name, ignoreLower) then [Join(root, name)] else [])
  }

  /** What one `os.walk` step contributes, file by file. */
  function DirHits(root: Path, names: seq<string>, extsLower: seq<string>, ignoreLower: Option<seq<string>>): seq<Path>
    decreases |names|
  {
    if names == [] then []
    else
      var n := |names| - 1;
      DirHits(root, names[..n], extsLower, ignoreLower) + FileHits(root, names[n], extsLower, ignoreLower)
  }

  /** What the whole walk contributes, step by step. */
  function WalkHits(steps: seq<WalkStep>, extsLower: seq<string>, ignoreLower: Option<seq<string>>): seq<Path>
    decreases |steps|
  {
    if steps == [] then []
    else
      var n := |steps| - 1;
      WalkHits(steps[..n], extsLower, ignoreLower) + DirHits(steps[n].root, steps[n].files, extsLower, ignoreLower)
  }

  function LowerIgnore(ignore: Option<seq<string>>): Option<seq<string>>
  {
    if ignore.Some? then Some(LowerAll(ignore.value)) else None
  }

  /** `_walk_dir_for_filetypes(extensionlist, directory, ignorelist)`.
      `extensions` is `None` when the argument is not a list. */
  function WalkDir(ws: Workspace, extensions: Option<seq<string>>, directory: Option<Path>,
                   ignore: Option<seq<string>>): Result<seq<Path>, WalkError>
  {
    if extensions.None? then Err(ExtensionsNotAList)
    else if directory.None? then Err(NoDirectory)
    else if !IsAbs(directory.value) then Err(NotAbsolute)
    else if !ws.isDir(directory.value) then Err(NotADirectory)
    else Ok(WalkHits(ws.walk(directory.value), LowerAll(extensions.value), LowerIgnore(ignore)))
  }

  /** A file name the walk keeps: it ends with one of the extensions and
      starts with none of the ignore prefixes, both compared in lower case. */
  predicate Wanted(name: string, extensions: seq<string>, ignore: Option<seq<string>>)
  {
    && (exists e :: e in extensions && EndsWith(Lower(name), Lower(e)))
    && !(ignore.Some? && exists c :: c in ignore.value && StartsWith(Lower(name), Lower(c)))
  }

  /** How many of the lower-cased extensions a lower-cased name ends with. */
  function MatchCount(lowerName: string, extsLower: seq<string>): nat
    decreases |extsLower|
  {
    if extsLower == [] then 0
    else
      var n := |extsLower| - 1;
      MatchCount(lowerName, extsLower[..n]) + (if EndsWith(lowerName, extsLower[n]) then 1 else 0)
  }

  /** A file is returned once per matching extension (so possibly several
      times), and nothing but its own joined path is returned for it. */
  lemma {:induction false} FileHitsCount(root: Path, name: string, extsLower: seq<string>, ignoreLower: Option<seq<string>>)
    ensures |FileHits(root, name, extsLower, ignoreLower)|
            == if Ignored(name, ignoreLower) then 0 else MatchCount(Lower(name), extsLower)
    ensures forall x :: x in FileHits(root, name, extsLower, ignoreLower) ==> x == Join(root, name)
    decreases |extsLower|
  {
    if extsLower != [] {
      FileHitsCount(root, name, extsLower[..|extsLower| - 1], ignoreLower);
    }
  }

  /** The innermost loops append a file at least once. */
  predicate Kept(name: string, extsLower: seq<string>, ignoreLower: Option<seq<string>>)
  {
    (exists e :: e in extsLower && EndsWith(Lower(name), e)) && !Ignored(name, ignoreLower)
  }

  lemma {:induction false} FileHitsMembers(root: Path, name: string, extsLower: seq<string>, ignoreLower: Option<seq<string>>, x: Path)
    ensures x in FileHits(root, name, extsLower, ignoreLower)
            <==> x == Join(root, name) && Kept(name, extsLower, ignoreLower)
    decreases |extsLower|
  {
    if extsLower != [] {
      var n := |extsLower| - 1;
      FileHitsMembers(root, name, extsLower[..n], ignoreLower, x);
      assert forall e :: e in extsLower <==> e in extsLower[..n] || e == extsLower[n] by {
        assert extsLower == extsLower[..n] + [extsLower[n]];
      }
    }
  }

  /** `x` is the joined path of the `k`-th file of step `i`. */
  predicate Lists(steps: seq<WalkStep>, i: int, k: int, x: Path)
  {
    0 <= i < |steps| && 0 <= k < |steps[i].files| && x == Join(steps[i].root, steps[i].files[k])
  }

  /** `x` is the joined path of the `k`-th of `names`. */
  predicate Named(root: Path, names: seq<string>, k: int, x: Path)
  {
    0 <= k < |names| && x == Join(root, names[k])
  }

  lemma {:induction false} DirHitsSound(root: Path, names: seq<string>, extsLower: seq<string>, ignoreLower: Option<seq<string>>, x: Path)
    requires x in DirHits(root, names, extsLower, ignoreLower)
    ensures exists k :: Named(root, names, k, x) && Kept(names[k], extsLower, ignoreLower)
    decreases |names|
  {
    var n := |names| - 1;
    var pre := names[..n];
    if x in DirHits(root, pre, extsLower, ignoreLower) {
      DirHitsSound(root, pre, extsLower, ignoreLower, x);
      var k :| Named(root, pre, k, x) && Kept(pre[k], extsLower, ignoreLower);
      assert pre[k] == names[k];
      assert Named(root, names, k, x);
    } else {
      FileHitsMembers(root, names[n], extsLower, ignoreLower, x);
      assert Named(root, names, n, x);
    }
  }

  lemma DirHitsGrows(root: Path, names: seq<string>, extsLower: seq<string>, ignoreLower: Option<seq<string>>, y: Path)
    requires |names| > 0 && y in DirHits(root, names[..|names| - 1], extsLower, ignoreLower)
    ensures y in DirHits(root, names, extsLower, ignoreLower)
  {
  }

  lemma DirHitsLast(root: Path, names: seq<string>, extsLower: seq<string>, ignoreLower: Option<seq<string>>)
    requires |names| > 0 && Kept(names[|names| - 1], extsLower, ignoreLower)
    ensures Join(root, names[|names| - 1]) in DirHits(root, names, extsLower, ignoreLower)
  {
    FileHitsMembers(root, names[|names| - 1], extsLower, ignoreLower, Join(root, names[|names| - 1]));
  }

  lemma {:induction false} DirHitsComplete(root: Path, names: seq<string>, extsLower: seq<string>, ignoreLower: Option<seq<string>>, k: int)
    requires 0 <= k < |names| && Kept(names[k], extsLower, ignoreLower)
    ensures Join(root, names[k]) in DirHits(root, names, extsLower, ignoreLower)
    decreases |names|
  {
    var n := |names| - 1;
    if k < n {
      var pre := names[..n];
      assert pre[k] == names[k];
      DirHitsComplete(root, pre, extsLower, ignoreLower, k);
      DirHitsGrows(root, names, extsLower, ignoreLower, Join(root, names[k]));
    } else {
      DirHitsLast(root, names, extsLower, ignoreLower);
    }
  }

  lemma DirHitsMembers(root: Path, names: seq<string>, extsLower: seq<string>, ignoreLower: Option<seq<string>>, x: Path)
    ensures x in DirHits(root, names, extsLower, ignoreLower)
            <==> exists k :: Named(root, names, k, x) && Kept(names[k], extsLower, ignoreLower)
  {
    if x in DirHits(root, names, extsLower, ignoreLower) {
      DirHitsSound(root, names, extsLower, ignoreLower, x);
    }
    if exists k :: Named(root, names, k, x) && Kept(names[k], extsLower, ignoreLower) {
      var k :| Named(root, names, k, x) && Kept(names[k], extsLower, ignoreLower);
      DirHitsComplete(root, names, extsLower, ignoreLower, k);
    }
  }

  lemma {:induction false} WalkHitsSound(steps: seq<WalkStep>, extsLower: seq<string>, ignoreLower: Option<seq<string>>, x: Path)
    requires x in WalkHits(steps, extsLower, ignoreLower)
    ensures exists i, k :: Lists(steps, i, k, x) && Kept(steps[i].files[k], extsLower, ignoreLower)
    decreases |steps|
  {
    var n := |steps| - 1;
    var pre := steps[..n];
    if x in WalkHits(pre, extsLower, ignoreLower) {
      WalkHitsSound(pre, extsLower, ignoreLower, x);
      var i, k :| Lists(pre, i, k, x) && Kept(pre[i].files[k], extsLower, ignoreLower);
      assert pre[i] == steps[i];
      assert Lists(steps, i, k, x);
    } else {
      DirHitsSound(steps[n].root, steps[n].files, extsLower, ignoreLower, x);
      var k :| Named(steps[n].root, steps[n].files, k, x) && Kept(steps[n].files[k], extsLower, ignoreLower);
      assert Lists(steps, n, k, x);
    }
  }

  lemma {:induction false} WalkHitsComplete(steps: seq<WalkStep>, extsLower: seq<string>, ignoreLower: Option<seq<string>>, i: int, k: int, x: Path)
    requires Lists(steps, i, k, x) && Kept(steps[i].files[k], extsLower, ignoreLower)
    ensures x in WalkHits(steps, extsLower, ignoreLower)
    decreases |steps|
  {
    var n := |steps| - 1;
    var pre := steps[..n];
    if i < n {
      assert pre[i] == steps[i];
      WalkHitsComplete(pre, extsLower, ignoreLower, i, k, x);
    } else {
      DirHitsComplete(steps[n].root, steps[n].files, extsLower, ignoreLower, k);
    }
  }

  lemma WalkHitsMembers(steps: seq<WalkStep>, extsLower: seq<string>, ignoreLower: Option<seq<string>>, x: Path)
    ensures x in WalkHits(steps, extsLower, ignoreLower)
            <==> exists i, k :: Lists(steps, i, k, x) && Kept(steps[i].files[k], extsLower, ignoreLower)
  {
    if x in WalkHits(steps, extsLower, ignoreLower) {
      WalkHitsSound(steps, extsLower, ignoreLower, x);
    }
    if exists i, k :: Lists(steps, i, k, x) && Kept(steps[i].files[k], extsLower, ignoreLower) {
      var i, k :| Lists(steps, i, k, x) && Kept(steps[i].files[k], extsLower, ignoreLower);
      WalkHitsComplete(steps, extsLower, ignoreLower, i, k, x);
    }
  }

  lemma KeptLowered(name: string, extensions: seq<string>, ignore: Option<seq<string>>)
    ensures Kept(name, LowerAll(extensions), LowerIgnore(ignore)) <==> Wanted(name, extensions, ignore)
  {
    var extsLower := LowerAll(extensions);
    if exists e :: e in extensions && EndsWith(Lower(name), Lower(e)) {
      var e :| e in extensions && EndsWith(Lower(name), Lower(e));
      var j :| 0 <= j < |extensions| && extensions[j] == e;
      assert extsLower[j] == Lower(e);
    }
    if ignore.Some? && exists c :: c in ignore.value && StartsWith(Lower(name), Lower(c)) {
      var c :| c in ignore.value && StartsWith(Lower(name), Lower(c));
      var j :| 0 <= j < |ignore.value| && ignore.value[j] == c;
      assert LowerAll(ignore.value)[j] == Lower(c);
    }
  }

  /** The walk fails exactly on the four bad-argument cases; otherwise it
      returns precisely the joined paths of the wanted files it visits. */
  lemma WalkDirResult(ws: Workspace, extensions: Option<seq<string>>, directory: Option<Path>,
                      ignore: Option<seq<string>>, x: Path)
    ensures WalkDir(ws, extensions, directory, ignore).Ok?
            <==> extensions.Some? && directory.Some? && IsAbs(directory.value) && ws.isDir(directory.value)
    ensures WalkDir(ws, extensions, directory, ignore).Ok? ==>
              (x in WalkDir(ws, extensions, directory, ignore).value
               <==> exists i, k :: Lists(ws.walk(directory.value), i, k, x)
                                   && Wanted(ws.walk(directory.value)[i].files[k], extensions.value, ignore))
  {
    if WalkDir(ws, extensions, directory, ignore).Ok? {
      var steps := ws.walk(directory.value);
      WalkHitsMembers(steps, LowerAll(extensions.value), LowerIgnore(ignore), x);
      forall i, k | Lists(steps, i, k, x)
        ensures Kept(steps[i].files[k], LowerAll(extensions.value), LowerIgnore(ignore))
                <==> Wanted(steps[i].files[k], extensions.value, ignore)
      {
        KeptLowered(steps[i].files[k], extensions.value, ignore);
      }
    }
  }
}
