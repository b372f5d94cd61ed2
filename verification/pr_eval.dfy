/** `edk2_pr_eval`: the `DiffToPackageResolver` class, whose methods follow
    the source loop by loop and are proved against the specifications in
    `Policies`, `DirWalk` and `DecLookup`, and the `Go` entry point with its
    fallback for a failed diff. */
module PrEval {
  import opened Wrappers
  import opened Text
  import opened Lists
  import opened Environment
  import opened DirWalk
  import opened DecLookup
  import opened Policies
  import Settings

  /** The packages containing some of `files`. */
  function ContainingPackages(ws: Workspace, files: seq<Path>): set<PackageId>
  {
    set f | f in files && ws.containingPackage(f).Some? :: ws.containingPackage(f).value
  }

  /** Only the `packages_to_build` dictionary leaves `get_packages_to_build`. */
  function BuiltOnly(res: Result<Selection, ResolveError>): Result<map<PackageId, string>, ResolveError>
  {
    match res
    case Ok(s) => Ok(s.built)
    case Err(e) => Err(e)
  }

  class DiffToPackageResolver {
    /** The path service and file system the resolver consults. */
    const ws: Workspace
    /** `parsed_dec_cache`: the DEC parse of each package seen so far,
        including the packages that have none. */
    var parsedDecCache: map<PackageId, Option<seq<string>>>
    /** The packages whose DEC was looked up, in order of lookup. */
    ghost var parsed: seq<PackageId>

    /** Every cached entry is what a fresh parse would give, and each package
        has been parsed exactly once. */
    ghost predicate Valid()
      reads this
    {
      && (forall pkg :: pkg in parsedDecCache ==> parsedDecCache[pkg] == ParseDec(ws, ws.toAbsolute(pkg)))
      && Distinct(parsed)
      && Elems(parsed) == parsedDecCache.Keys
    }

    constructor (ws: Workspace)
      ensures Valid()
      ensures this.ws == ws && parsedDecCache == map[] && parsed == []
    {
      this.ws := ws;
      parsedDecCache := map[];
      parsed := [];
    }

    /** `_parse_dec_for_package`: the loop keeps the last `.dec` entry. */
    method ParseDecForPackage(pathToPackage: Option<Path>) returns (dec: Option<seq<string>>)
      ensures dec == ParseDec(ws, pathToPackage)
    {
      if pathToPackage.None? {
        return None;
      }
      var dir := pathToPackage.value;
      var listing := ws.listDir(dir);
      if listing.None? {
        return None;
      }
      var entries := listing.value;
      var path: Option<Path> := None;
      var i := 0;
      while i < |entries|
        invariant 0 <= i <= |entries|
        invariant path == match LastDecEntry(entries[..i])
                          case None => None
                          case Some(e) => Some(Join(dir, e))
      {
        assert entries[..i + 1][..i] == entries[..i];
        if EndsWith(Lower(entries[i]), ".dec") {
          path := Some(Join(dir, entries[i]));
        }
        i := i + 1;
      }
      assert entries[..i] == entries;
      if path.None? {
        return None;
      }
      var wsrDecPath := ws.toRelative(path.value);
      if wsrDecPath == "" || !ws.isFile(path.value) {
        return None;
      }
      dec := Some(ws.decIncludePaths(wsrDecPath));
    }

    /** `_is_public_file`: consults the cache first and parses a package's
        DEC only on its first lookup. */
    method IsPublicFile(filepath: Path) returns (isPublic: bool)
      requires Valid()
      modifies this
      ensures Valid()
      ensures isPublic == IsPublic(ws, filepath)
      ensures match ws.containingPackage(filepath)
              case None =>
                parsedDecCache == old(parsedDecCache) && parsed == old(parsed)
              case Some(pkg) =>
                && parsedDecCache == old(parsedDecCache)[pkg := ParseDec(ws, ws.toAbsolute(pkg))]
                && parsed == old(parsed) + (if pkg in old(parsedDecCache) then [] else [pkg])
    {
      var containing := ws.containingPackage(filepath);
      if containing.None? {
        return false;
      }
      var pkg := containing.value;
      var dec: Option<seq<string>>;
      if pkg in parsedDecCache {
        dec := parsedDecCache[pkg];
      } else {
        var absPkgPath := ws.toAbsolute(pkg);
        dec := ParseDecForPackage(absPkgPath);
        parsedDecCache := parsedDecCache[pkg := dec];
        DistinctAppend(parsed, pkg);
        parsed := parsed + [pkg];
      }
      if dec.None? {
        return false;
      }
      var fp := ReplaceBackslash(filepath);
      var includes := dec.value;
      var i := 0;
      while i < |includes|
        invariant 0 <= i <= |includes|
        invariant forall j :: 0 <= j < i ==> !Contains(fp, pkg + "/" + includes[j] + "/")
      {
        if Contains(fp, pkg + "/" + includes[i] + "/") {
          return true;
        }
        i := i + 1;
      }
      if EndsWith(Lower(filepath), ".dec") {
        return true;
      }
      return false;
    }

    /** `_walk_dir_for_filetypes`: argument checks, then the walk's files in
        walk order, once per matching extension. */
    method WalkDirForFiletypes(extensionList: Option<seq<string>>, directory: Option<Path>,
                               ignoreList: Option<seq<string>>)
      returns (r: Result<seq<Path>, WalkError>)
      ensures r == WalkDir(ws, extensionList, directory, ignoreList)
    {
      if extensionList.None? {
        return Err(ExtensionsNotAList);
      }
      if directory.None? {
        return Err(NoDirectory);
      }
      if !IsAbs(directory.value) {
        return Err(NotAbsolute);
      }
      if !ws.isDir(directory.value) {
        return Err(NotADirectory);
      }
      var ignoreLower: seq<string> := [];
      if ignoreList.Some? {
        ignoreLower := LowerEach(ignoreList.value);
      }
      var extensionLower := LowerEach(extensionList.value);
      ghost var ignored := LowerIgnore(ignoreList);
      assert ignoreList.Some? ==> ignored == Some(ignoreLower);

      var returnList: seq<Path> := [];
      var steps := ws.walk(directory.value);
      for w := 0 to |steps|
        invariant returnList == WalkHits(steps[..w], extensionLower, ignored)
      {
        assert steps[..w + 1][..w] == steps[..w];
        var hits := DirHitsOf(steps[w].root, steps[w].files, extensionLower, ignoreList.Some?, ignoreLower);
        returnList := returnList + hits;
      }
      assert steps[..|steps|] == steps;
      return Ok(returnList);
    }

    /** The `item.lower()` loops of `_walk_dir_for_filetypes`. */
    static method LowerEach(items: seq<string>) returns (lowered: seq<string>)
      ensures lowered == LowerAll(items)
    {
      lowered := [];
      for i := 0 to |items|
        invariant lowered == LowerAll(items[..i])
      {
        lowered := lowered + [Lower(items[i])];
      }
      assert items[..|items|] == items;
    }

    /** The loop of `_walk_dir_for_filetypes` over the files of one walk step. */
    static method DirHitsOf(root: Path, names: seq<string>, extensionLower: seq<string>,
                            hasIgnoreList: bool, ignoreLower: seq<string>)
      returns (hits: seq<Path>)
      ensures hits == DirHits(root, names, extensionLower, if hasIgnoreList then Some(ignoreLower) else None)
    {
      hits := [];
      for k := 0 to |names|
        invariant hits == DirHits(root, names[..k], extensionLower, if hasIgnoreList then Some(ignoreLower) else None)
      {
        assert names[..k + 1][..k] == names[..k];
        var fileHits := FileHitsOf(root, names[k], extensionLower, hasIgnoreList, ignoreLower);
        hits := hits + fileHits;
      }
      assert names[..|names|] == names;
    }

    /** The two innermost loops of `_walk_dir_for_filetypes` for one file. */
    static method FileHitsOf(root: Path, name: string, extensionLower: seq<string>,
                             hasIgnoreList: bool, ignoreLower: seq<string>)
      returns (hits: seq<Path>)
      ensures hits == FileHits(root, name, extensionLower, if hasIgnoreList then Some(ignoreLower) else None)
    {
      ghost var ignored := if hasIgnoreList then Some(ignoreLower) else None;
      hits := [];
      for e := 0 to |extensionLower|
        invariant hits == FileHits(root, name, extensionLower[..e], ignored)
      {
        assert extensionLower[..e + 1][..e] == extensionLower[..e];
        if EndsWith(Lower(name), extensionLower[e]) {
          var ignoreIt := false;
          if hasIgnoreList {
            var c := 0;
            while c < |ignoreLower|
              invariant 0 <= c <= |ignoreLower|
              invariant !ignoreIt ==> forall j :: 0 <= j < c ==> !StartsWith(Lower(name), ignoreLower[j])
              invariant ignoreIt ==> Ignored(name, ignored)
            {
              if StartsWith(Lower(name), ignoreLower[c]) {
                ignoreIt := true;
                break;
              }
              c := c + 1;
            }
          }
          if !ignoreIt {
            hits := hits + [Join(root, name)];
          }
        }
      }
      assert extensionLower[..|extensionLower|] == extensionLower;
    }

    /** `_does_pkg_depend_on_package`: walks the package's INF files and stops
        at the first used package that starts with the support package. */
    method DoesPkgDependOnPackage(packageToEval: PackageId, supportPackage: PackageId)
      returns (r: Result<bool, WalkError>)
      ensures r == DependsOn(ws, packageToEval, supportPackage)
    {
      var absPkgPath := ws.toAbsolute(packageToEval);
      var walked := WalkDirForFiletypes(Some([".inf"]), absPkgPath, None);
      if walked.Err? {
        return Err(walked.error);
      }
      var infFiles := walked.value;
      for i := 0 to |infFiles|
        invariant forall f, u :: f in infFiles[..i] && u in ws.packagesUsed(f) ==> !StartsWith(u, supportPackage)
      {
        assert forall f :: f in infFiles[..i + 1] ==> f in infFiles[..i] || f == infFiles[i];
        var used := ws.packagesUsed(infFiles[i]);
        for j := 0 to |used|
          invariant forall u :: u in used[..j] ==> !StartsWith(u, supportPackage)
        {
          assert forall u :: u in used[..j + 1] ==> u in used[..j] || u == used[j];
          if StartsWith(used[j], supportPackage) {
            return Ok(true);
          }
        }
        assert used[..|used|] == used;
      }
      assert infFiles[..|infFiles|] == infFiles;
      return Ok(false);
    }

    /** The first loop of Policy 3: the package of every changed file with a
        known package is looked up in the cache (or parsed), and appended
        when the file is public. */
    method CollectPublicChanges(files: seq<Path>) returns (publicPackageChanges: seq<PackageId>)
      requires Valid()
      modifies this
      ensures Valid()
      ensures publicPackageChanges == PublicPackages(ws, files)
      ensures parsedDecCache.Keys == old(parsedDecCache.Keys) + ContainingPackages(ws, files)
    {
      publicPackageChanges := [];
      for i := 0 to |files|
        invariant Valid()
        invariant publicPackageChanges == PublicPackages(ws, files[..i])
        invariant parsedDecCache.Keys == old(parsedDecCache.Keys) + ContainingPackages(ws, files[..i])
      {
        CollectStep(ws, files, i);
        var hit := CollectOne(files[i]);
        publicPackageChanges := publicPackageChanges + hit;
      }
      assert files[..|files|] == files;
    }

    /** One turn of the first loop of Policy 3: the package of `f`, when it
        has one and `f` is public. */
    method CollectOne(f: Path) returns (hit: seq<PackageId>)
      requires Valid()
      modifies this
      ensures Valid()
      ensures hit == match ws.containingPackage(f)
                     case None => []
                     case Some(pkg) => if IsPublic(ws, f) then [pkg] else []
      ensures parsedDecCache.Keys == old(parsedDecCache.Keys)
                                     + (if ws.containingPackage(f).Some? then {ws.containingPackage(f).value} else {})
    {
      hit := [];
      var pkg := ws.containingPackage(f);
      if pkg.Some? {
        var isPublic := IsPublicFile(f);
        assert parsedDecCache.Keys == old(parsedDecCache.Keys) + {pkg.value};
        if isPublic {
          hit := [pkg.value];
        }
      }
    }

    /** The inner loop of Policy 3 for one public-changed package `a`: over a
        snapshot of the remaining list, every package that depends on `a` is
        marked and removed. */
    method DependencyPass(a: PackageId, packagesToBuild: map<PackageId, string>, remainingPackages: seq<PackageId>)
      returns (r: Result<Selection, ResolveError>)
      ensures r == Policy3Scan(ws, Selection(packagesToBuild, remainingPackages), a, remainingPackages)
    {
      var built, remaining := packagesToBuild, remainingPackages;
      var snapshot := remainingPackages;
      for k := 0 to |snapshot|
        invariant Policy3Scan(ws, Selection(packagesToBuild, remainingPackages), a, snapshot)
                  == Policy3Scan(ws, Selection(built, remaining), a, snapshot[k..])
      {
        var p := snapshot[k];
        var depends := DoesPkgDependOnPackage(p, a);
        if depends.Err? {
          return Err(WalkFailed(depends.error));
        }
        if depends.value {
          built := built[p := Policy3Reason(a)];
          remaining := RemoveFirst(remaining, p);
        }
      }
      return Ok(Selection(built, remaining));
    }

    /** Policy 1 of `get_packages_to_build`: every package the platform
        function returned is marked and removed; one no longer remaining
        raises. */
    method ApplyPlatformFilter(after: seq<PackageId>, possiblePackages: seq<PackageId>)
      returns (r: Result<Selection, ResolveError>)
      ensures r == Policy1(Selection(map[], possiblePackages), after)
    {
      var packagesToBuild: map<PackageId, string> := map[];
      var remainingPackages := possiblePackages;
      for i := 0 to |after|
        invariant Policy1(Selection(map[], possiblePackages), after)
                  == Policy1(Selection(packagesToBuild, remainingPackages), after[i..])
      {
        var a := after[i];
        if a !in remainingPackages {
          return Err(FilterReturnedDisallowed(a));
        }
        packagesToBuild := packagesToBuild[a := Policy1Reason];
        remainingPackages := RemoveFirst(remainingPackages, a);
      }
      return Ok(Selection(packagesToBuild, remainingPackages));
    }

    /** Policy 2 of `get_packages_to_build`: the package of each changed file
        is marked and removed while it is remaining; files whose package
        cannot be found are skipped. */
    method ApplyChangedPackages(files: seq<Path>, packagesToBuild: map<PackageId, string>,
                                remainingPackages: seq<PackageId>)
      returns (s: Selection)
      ensures s == Policy2(ws, Selection(packagesToBuild, remainingPackages), files)
    {
      s := Selection(packagesToBuild, remainingPackages);
      for i := 0 to |files|
        invariant Policy2(ws, Selection(packagesToBuild, remainingPackages), files) == Policy2(ws, s, files[i..])
      {
        var pkg := ws.containingPackage(ws.absPath(files[i]));
        if pkg.Some? && pkg.value !in s.built && pkg.value in s.remaining {
          s := Selection(s.built[pkg.value := Policy2Reason], RemoveFirst(s.remaining, pkg.value));
        }
      }
    }

    /** The outer loop of Policy 3: one dependency pass per public-changed
        package, in iteration order. */
    method ApplyDependents(publicOrder: seq<PackageId>, packagesToBuild: map<PackageId, string>,
                           remainingPackages: seq<PackageId>)
      returns (r: Result<Selection, ResolveError>)
      ensures r == Policy3(ws, Selection(packagesToBuild, remainingPackages), publicOrder)
    {
      var s := Selection(packagesToBuild, remainingPackages);
      for j := 0 to |publicOrder|
        invariant Policy3(ws, Selection(packagesToBuild, remainingPackages), publicOrder)
                  == Policy3(ws, s, publicOrder[j..])
      {
        assert publicOrder[j..][1..] == publicOrder[j + 1..];
        var pass := DependencyPass(publicOrder[j], s.built, s.remaining);
        if pass.Err? {
          return Err(pass.error);
        }
        s := pass.value;
      }
      return Ok(s);
    }

    /** `get_packages_to_build`. `order` is the iteration order Python's set
        gave the public-change packages. The cache gains an entry for every
        package containing a changed file, unless Policy 1 aborted first. */
    method GetPackagesToBuild(files: seq<Path>, possiblePackages: seq<PackageId>,
                              platFunc: (seq<string>, seq<PackageId>) -> seq<PackageId>)
      returns (r: Result<map<PackageId, string>, ResolveError>, ghost order: seq<PackageId>)
      requires Valid()
      modifies this
      ensures Valid()
      ensures IsSetOrder(order, PublicPackages(ws, files))
      ensures r == BuiltOnly(Resolve(ws, files, possiblePackages, platFunc, order))
      ensures r.Err? && r.error.FilterReturnedDisallowed? ==> parsedDecCache == old(parsedDecCache)
      ensures !(r.Err? && r.error.FilterReturnedDisallowed?) ==>
                parsedDecCache.Keys == old(parsedDecCache.Keys) + ContainingPackages(ws, files)
    {
      var edk2RelativeFiles := RelativeFiles(ws, files);

      // Policy 1 - platform function, given a copy of the candidates
      var after := platFunc(edk2RelativeFiles, possiblePackages);
      var policy1 := ApplyPlatformFilter(after, possiblePackages);
      Policy1Accepts(Selection(map[], possiblePackages), after);
      if policy1.Err? {
        order := Dedup(PublicPackages(ws, files));
        return Err(policy1.error), order;
      }

      // Policy 2 - build any package that has changed
      var policy2 := ApplyChangedPackages(files, policy1.value.built, policy1.value.remaining);

      // Policy 3 - packages whose public files changed, and those depending on them
      var publicPackageChanges := CollectPublicChanges(files);
      var publicOrder := Dedup(publicPackageChanges);
      order := publicOrder;
      var policy3 := ApplyDependents(publicOrder, policy2.built, policy2.remaining);
      Policy3FailsOnlyByWalk(ws, policy2, publicOrder);
      r := BuiltOnly(policy3);
    }
  }

  lemma ContainingPackagesAppend(ws: Workspace, files: seq<Path>, f: Path)
    ensures ContainingPackages(ws, files + [f])
            == ContainingPackages(ws, files)
               + (if ws.containingPackage(f).Some? then {ws.containingPackage(f).value} else {})
  {
    assert forall g :: g in files + [f] <==> g in files || g == f;
  }

  lemma PublicPackagesAppend(ws: Workspace, files: seq<Path>, f: Path)
    ensures PublicPackages(ws, files + [f])
            == PublicPackages(ws, files)
               + match ws.containingPackage(f)
                 case None => []
                 case Some(pkg) => if IsPublic(ws, f) then [pkg] else []
  {
    assert (files + [f])[..|files|] == files;
  }

  /** How both specifications of the first Policy 3 loop grow by one file. */
  lemma CollectStep(ws: Workspace, files: seq<Path>, i: nat)
    requires i < |files|
    ensures ContainingPackages(ws, files[..i + 1])
            == ContainingPackages(ws, files[..i])
               + (if ws.containingPackage(files[i]).Some? then {ws.containingPackage(files[i]).value} else {})
    ensures PublicPackages(ws, files[..i + 1])
            == PublicPackages(ws, files[..i])
               + match ws.containingPackage(files[i])
                 case None => []
                 case Some(pkg) => if IsPublic(ws, files[i]) then [pkg] else []
  {
    assert files[..i + 1] == files[..i] + [files[i]];
    ContainingPackagesAppend(ws, files[..i], files[i]);
    PublicPackagesAppend(ws, files[..i], files[i]);
  }

  lemma DistinctAppend<T>(s: seq<T>, x: T)
    requires Distinct(s) && x !in s
    ensures Distinct(s + [x])
  {
  }

  /** The reason recorded for every package when the diff fails. */
  function FailedDiffReason(rc: int): string
  {
    "Policy 0 - Failed to diff (" + IntToDecimal(rc) + ")"
  }

  /** Different diff failures are reported with different reasons. */
  lemma FailedDiffReasonInjective(rc1: int, rc2: int)
    requires FailedDiffReason(rc1) == FailedDiffReason(rc2)
    ensures rc1 == rc2
  {
    var k := |"Policy 0 - Failed to diff ("|;
    var r1, r2 := FailedDiffReason(rc1), FailedDiffReason(rc2);
    assert IntToDecimal(rc1) == r1[k..|r1| - 1];
    assert IntToDecimal(rc2) == r2[k..|r2| - 1];
    IntToDecimalRoundTrip(rc1);
    IntToDecimalRoundTrip(rc2);
  }

  /** `Edk2PrEval.Go` without its reporting: `rc` and `files` are what the
      diff returned. On success the resolver decides; on failure every
      requested package is built, its reason carrying the exit code. */
  method Go(ws: Workspace, rc: int, files: seq<Path>, requestedPackages: seq<PackageId>,
            platFunc: (seq<string>, seq<PackageId>) -> seq<PackageId>)
    returns (actualPackages: Result<map<PackageId, string>, ResolveError>, ghost order: seq<PackageId>)
    ensures rc == 0 ==>
              && IsSetOrder(order, PublicPackages(ws, files))
              && actualPackages == BuiltOnly(Resolve(ws, files, requestedPackages, platFunc, order))
    ensures rc != 0 ==>
              && actualPackages.Ok?
              && actualPackages.value.Keys == Elems(requestedPackages)
              && forall p :: p in actualPackages.value ==> actualPackages.value[p] == FailedDiffReason(rc)
  {
    if rc == 0 {
      var packageResolver := new DiffToPackageResolver(ws);
      actualPackages, order := packageResolver.GetPackagesToBuild(files, requestedPackages, platFunc);
    } else {
      var fallback: map<PackageId, string> := map[];
      for i := 0 to |requestedPackages|
        invariant fallback.Keys == Elems(requestedPackages[..i])
        invariant forall p :: p in fallback ==> fallback[p] == FailedDiffReason(rc)
      {
        assert requestedPackages[..i + 1] == requestedPackages[..i] + [requestedPackages[i]];
        fallback := fallback[requestedPackages[i] := FailedDiffReason(rc)];
      }
      assert requestedPackages[..|requestedPackages|] == requestedPackages;
      actualPackages := Ok(fallback);
      order := [];
    }
  }

  /** With the default platform filter every candidate is built for the
      Policy 1 reason, whatever the diff, even an empty one; nothing remains
      and the dependency walk never runs. */
  lemma DefaultFilterBuildsEverything(ws: Workspace, files: seq<Path>, possible: seq<PackageId>, order: seq<PackageId>)
    ensures Resolve(ws, files, possible, Settings.FilterPackagesToTest, order)
            == Ok(Selection(map p | p in possible :: Policy1Reason, []))
  {
    Policy1TakesAll(map[], possible);
    var all := map p | p in possible :: Policy1Reason;
    assert map[] + all == all;
    Policy2NothingRemaining(ws, all, files);
    Policy3NothingRemaining(ws, all, order);
  }

  lemma {:induction false} Policy1TakesAll(built: map<PackageId, string>, xs: seq<PackageId>)
    ensures Policy1(Selection(built, xs), xs) == Ok(Selection(built + map p | p in xs :: Policy1Reason, []))
    decreases |xs|
  {
    if xs != [] {
      var x := xs[0];
      assert x in Selection(built, xs).remaining;
      RemoveFirstHead(xs);
      assert Take(Selection(built, xs), x, Policy1Reason) == Selection(built[x := Policy1Reason], xs[1..]);
      Policy1TakesAll(built[x := Policy1Reason], xs[1..]);
      MarkAllHead(built, xs);
    } else {
      assert (map p | p in xs :: Policy1Reason) == map[];
      assert built + map[] == built;
    }
  }

  lemma MarkAllHead(built: map<PackageId, string>, xs: seq<PackageId>)
    requires xs != []
    ensures built[xs[0] := Policy1Reason] + (map p | p in xs[1..] :: Policy1Reason)
            == built + map p | p in xs :: Policy1Reason
  {
    var lhs := built[xs[0] := Policy1Reason] + (map p | p in xs[1..] :: Policy1Reason);
    var rhs := built + map p | p in xs :: Policy1Reason;
    assert forall p :: p in xs <==> p == xs[0] || p in xs[1..] by {
      assert xs == [xs[0]] + xs[1..];
    }
    assert lhs.Keys == rhs.Keys;
    assert forall p :: p in lhs ==> lhs[p] == rhs[p];
  }

  lemma {:induction false} Policy2NothingRemaining(ws: Workspace, built: map<PackageId, string>, files: seq<Path>)
    ensures Policy2(ws, Selection(built, []), files) == Selection(built, [])
    decreases |files|
  {
    if files != [] {
      Policy2NothingRemaining(ws, built, files[1..]);
    }
  }

  lemma {:induction false} Policy3NothingRemaining(ws: Workspace, built: map<PackageId, string>, order: seq<PackageId>)
    ensures Policy3(ws, Selection(built, []), order) == Ok(Selection(built, []))
    decreases |order|
  {
    if order != [] {
      Policy3NothingRemaining(ws, built, order[1..]);
    }
  }
}
