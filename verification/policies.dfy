/** Specification of `DiffToPackageResolver.get_packages_to_build`: the three
    ordered policies over a shrinking list of remaining packages, and the
    public-file and dependency tests they use. */
module Policies {
  import opened Wrappers
  import opened Text
  import opened Lists
  import opened Environment
  import opened DirWalk
  import opened DecLookup

  const Policy1Reason: string := "Policy 1 - Platform Function - Filter Packages"
  const Policy2Reason: string := "Policy 2 - Build any package that has changed"

  function Policy3Reason(a: PackageId): string
  {
    "Policy 3 - Package depends on " + a
  }

  /** The reasons name their policy unambiguously, and a Policy 3 reason
      names its package unambiguously. */
  lemma ReasonsDistinct(a: PackageId, b: PackageId)
    ensures Policy1Reason != Policy2Reason
    ensures Policy1Reason != Policy3Reason(a) && Policy2Reason != Policy3Reason(a)
    ensures Policy3Reason(a) == Policy3Reason(b) ==> a == b
  {
    assert Policy1Reason[7] == '1' && Policy2Reason[7] == '2' && Policy3Reason(a)[7] == '3';
    var k := |"Policy 3 - Package depends on "|;
    if Policy3Reason(a) == Policy3Reason(b) {
      assert a == Policy3Reason(a)[k..] && b == Policy3Reason(b)[k..];
    }
  }

  // ---------------------------------------------------------------- public files

  /** `(pkg + "/" + includepath + "/") in fp` for some declared include path. */
  predicate UnderIncludePath(pkg: PackageId, includes: seq<string>, fp: Path)
  {
    exists inc :: inc in includes && Contains(fp, pkg + "/" + inc + "/")
  }

  /** `_is_public_file(filepath)`, with the DEC parse it caches. */
  function IsPublic(ws: Workspace, f: Path): bool
  {
    match ws.containingPackage(f)
    case None => false
    case Some(pkg) =>
      match ParseDec(ws, ws.toAbsolute(pkg))
      case None => false
      case Some(includes) =>
        UnderIncludePath(pkg, includes, ReplaceBackslash(f)) || EndsWith(Lower(f), ".dec")
  }

  /** A file below a declared include directory of its package is public, and
      so is any `.dec` file in a package that has a DEC (not only that
      package's own manifest); nothing else is. */
  lemma PublicFileCases(ws: Workspace, f: Path, pkg: PackageId, includes: seq<string>,
                        inc: string, before: string, rest: string)
    requires ws.containingPackage(f) == Some(pkg)
    requires ParseDec(ws, ws.toAbsolute(pkg)) == Some(includes)
    ensures inc in includes && ReplaceBackslash(f) == before + pkg + "/" + inc + "/" + rest ==> IsPublic(ws, f)
    ensures EndsWith(Lower(f), ".dec") ==> IsPublic(ws, f)
    ensures IsPublic(ws, f) ==> UnderIncludePath(pkg, includes, ReplaceBackslash(f)) || EndsWith(Lower(f), ".dec")
  {
    if inc in includes && ReplaceBackslash(f) == before + pkg + "/" + inc + "/" + rest {
      var fp := ReplaceBackslash(f);
      var t := pkg + "/" + inc + "/";
      assert fp == before + t + rest;
      assert fp[|before|..|before| + |t|] == t;
      assert OccursAt(fp, t, |before|);
    }
  }

  /** Without a containing package or without a DEC no file is public. */
  lemma NoDecNoPublicFiles(ws: Workspace, f: Path)
    requires ws.containingPackage(f).None? || ParseDec(ws, ws.toAbsolute(ws.containingPackage(f).value)).None?
    ensures !IsPublic(ws, f)
  {
  }

  /** The packages appended to `public_package_changes`, in file order. */
  function PublicPackages(ws: Workspace, files: seq<Path>): seq<PackageId>
    decreases |files|
  {
    if files == [] then []
    else
      var n := |files| - 1;
      PublicPackages(ws, files[..n])
        + match ws.containingPackage(files[n])
          case None => []
          case Some(pkg) => if IsPublic(ws, files[n]) then [pkg] else []
  }

  lemma {:induction false} PublicPackagesMembers(ws: Workspace, files: seq<Path>, a: PackageId)
    ensures a in PublicPackages(ws, files)
            <==> exists f :: f in files && ws.containingPackage(f) == Some(a) && IsPublic(ws, f)
    decreases |files|
  {
    if files != [] {
      var n := |files| - 1;
      PublicPackagesMembers(ws, files[..n], a);
      assert files == files[..n] + [files[n]];
      assert forall f :: f in files <==> f in files[..n] || f == files[n];
    }
  }

  /** Python's `list(set(xs))`: every element once, in an unspecified order. */
  predicate IsSetOrder(order: seq<PackageId>, xs: seq<PackageId>)
  {
    Distinct(order) && Elems(order) == Elems(xs)
  }

  // ---------------------------------------------------------------- dependencies

  /** The INF files below a package, as `_does_pkg_depend_on_package` walks them. */
  function ModuleFiles(ws: Workspace, p: PackageId): Result<seq<Path>, WalkError>
  {
    WalkDir(ws, Some([".inf"]), ws.toAbsolute(p), None)
  }

  /** `_does_pkg_depend_on_package(p, s)`: some module of `p` lists a used
      package that starts with `s`. Raises when the walk does. */
  function DependsOn(ws: Workspace, p: PackageId, s: PackageId): Result<bool, WalkError>
  {
    match ModuleFiles(ws, p)
    case Err(e) => Err(e)
    case Ok(infs) => Ok(exists f, u :: f in infs && u in ws.packagesUsed(f) && StartsWith(u, s))
  }

  /** The dependency test fails exactly when the package's directory cannot
      be walked, whatever the support package; it is a prefix test, so a
      dependency on `s + t` is also one on `s`; a package without modules
      depends on nothing. */
  lemma DependsOnCases(ws: Workspace, p: PackageId, s: PackageId, t: string)
    ensures DependsOn(ws, p, s).Err?
            <==> ws.toAbsolute(p).None? || !IsAbs(ws.toAbsolute(p).value) || !ws.isDir(ws.toAbsolute(p).value)
    ensures DependsOn(ws, p, s + t) == Ok(true) ==> DependsOn(ws, p, s) == Ok(true)
    ensures ModuleFiles(ws, p) == Ok([]) ==> DependsOn(ws, p, s) == Ok(false)
  {
    WalkDirResult(ws, Some([".inf"]), ws.toAbsolute(p), None, "");
    if DependsOn(ws, p, s + t) == Ok(true) {
      var infs := ModuleFiles(ws, p).value;
      var f, u :| f in infs && u in ws.packagesUsed(f) && StartsWith(u, s + t);
      StartsWithShorter(u, s, t);
    }
  }

  /** The first package in `order` that `p` depends on. */
  function FirstDependency(ws: Workspace, p: PackageId, order: seq<PackageId>): Option<PackageId>
    decreases |order|
  {
    if order == [] then None
    else if DependsOn(ws, p, order[0]) == Ok(true) then Some(order[0])
    else FirstDependency(ws, p, order[1..])
  }

  lemma {:induction false} FirstDependencyIsFirst(ws: Workspace, p: PackageId, order: seq<PackageId>)
    ensures FirstDependency(ws, p, order).None? <==> forall i :: 0 <= i < |order| ==> DependsOn(ws, p, order[i]) != Ok(true)
    ensures FirstDependency(ws, p, order).Some? ==>
              exists i :: 0 <= i < |order| && order[i] == FirstDependency(ws, p, order).value
                          && DependsOn(ws, p, order[i]) == Ok(true)
                          && forall j :: 0 <= j < i ==> DependsOn(ws, p, order[j]) != Ok(true)
    decreases |order|
  {
    if order != [] && DependsOn(ws, p, order[0]) != Ok(true) {
      FirstDependencyIsFirst(ws, p, order[1..]);
      assert forall i :: 0 < i < |order| ==> order[i] == order[1..][i - 1];
      if FirstDependency(ws, p, order).Some? {
        var i :| 0 <= i < |order[1..]| && order[1..][i] == FirstDependency(ws, p, order).value
                 && DependsOn(ws, p, order[1..][i]) == Ok(true)
                 && forall j :: 0 <= j < i ==> DependsOn(ws, p, order[1..][j]) != Ok(true);
        assert order[i + 1] == order[1..][i];
        assert forall j :: 0 <= j < i + 1 ==> DependsOn(ws, p, order[j]) != Ok(true) by {
          forall j | 0 <= j < i + 1 ensures DependsOn(ws, p, order[j]) != Ok(true) {
            if j > 0 { assert order[j] == order[1..][j - 1]; }
          }
        }
      }
    }
  }

  // ---------------------------------------------------------------- the policies

  /** The resolver's working state: `packages_to_build` and `remaining_packages`. */
  datatype Selection = Selection(built: map<PackageId, string>, remaining: seq<PackageId>)

  datatype ResolveError =
    | FilterReturnedDisallowed(pkg: PackageId)   // the ValueError of Policy 1
    | WalkFailed(walkError: WalkError)           // a ValueError from the walk in Policy 3

  /** Marks `p` to be built for `reason` and removes it from the remaining list. */
  function Take(sel: Selection, p: PackageId, reason: string): Selection
  {
    Selection(sel.built[p := reason], RemoveFirst(sel.remaining, p))
  }

  /** The remaining list has no repeats and shares no package with the keys. */
  predicate Disjoint(sel: Selection)
  {
    Distinct(sel.remaining) && forall p :: p in sel.remaining ==> p !in sel.built
  }

  lemma TakeDisjoint(sel: Selection, p: PackageId, reason: string)
    requires Disjoint(sel) && p in sel.remaining
    ensures Disjoint(Take(sel, p, reason))
    ensures forall q :: q in Take(sel, p, reason).remaining <==> q in sel.remaining && q != p
  {
    RemoveFirstDistinct(sel.remaining, p);
  }

  /** Policy 1: every package the platform filter returns is taken, in order;
      one that is no longer remaining aborts. */
  function Policy1(sel: Selection, after: seq<PackageId>): Result<Selection, ResolveError>
    decreases |after|
  {
    if after == [] then Ok(sel)
    else if after[0] !in sel.remaining then Err(FilterReturnedDisallowed(after[0]))
    else Policy1(Take(sel, after[0], Policy1Reason), after[1..])
  }

  /** Whatever the candidates, the filter's answer is accepted exactly when it
      asks for no package more often than the remaining list holds it. */
  lemma {:induction false} Policy1Accepts(sel: Selection, after: seq<PackageId>)
    ensures Policy1(sel, after).Ok? <==> multiset(after) <= multiset(sel.remaining)
    ensures Policy1(sel, after).Err? ==> Policy1(sel, after).error.FilterReturnedDisallowed?
    decreases |after|
  {
    if after != [] {
      var a := after[0];
      assert after == [a] + after[1..];
      assert multiset(after) == multiset{a} + multiset(after[1..]);
      if a in sel.remaining {
        var rest := Take(sel, a, Policy1Reason);
        Policy1Accepts(rest, after[1..]);
        assert multiset(rest.remaining) == multiset(sel.remaining) - multiset{a};
        assert multiset(sel.remaining)[a] >= 1;
        if multiset(after[1..]) <= multiset(rest.remaining) {
          forall y ensures multiset(after)[y] <= multiset(sel.remaining)[y] {
            assert multiset(after[1..])[y] <= multiset(rest.remaining)[y];
          }
        }
        if multiset(after) <= multiset(sel.remaining) {
          forall y ensures multiset(after[1..])[y] <= multiset(rest.remaining)[y] {
            assert multiset(after)[y] <= multiset(sel.remaining)[y];
          }
        }
      } else {
        assert multiset(after)[a] > 0;
      }
    }
  }

  /** On duplicate-free state, Policy 1 succeeds exactly when the filter
      returns distinct remaining packages; it then marks exactly those with
      the Policy 1 reason and removes them. */
  lemma {:induction false} Policy1Effect(sel: Selection, after: seq<PackageId>)
    requires Disjoint(sel)
    ensures Policy1(sel, after).Ok? <==> Distinct(after) && forall a :: a in after ==> a in sel.remaining
    ensures Policy1(sel, after).Ok? ==>
              var r := Policy1(sel, after).value;
              && Disjoint(r)
              && (forall q :: q in r.built <==> q in sel.built || q in after)
              && (forall q :: q in sel.built ==> r.built[q] == sel.built[q])
              && (forall q :: q in after ==> r.built[q] == Policy1Reason)
              && (forall q :: q in r.remaining <==> q in sel.remaining && q !in after)
    decreases |after|
  {
    if after != [] {
      var a := after[0];
      assert after == [a] + after[1..];
      assert forall q :: q in after <==> q == a || q in after[1..];
      if a in sel.remaining {
        var t := Take(sel, a, Policy1Reason);
        TakeDisjoint(sel, a, Policy1Reason);
        Policy1Effect(t, after[1..]);
        if Distinct(after) {
          DistinctTail(after);
        }
        if Distinct(after[1..]) && a !in after[1..] {
          DistinctCons(a, after[1..]);
        }
      } else {
        assert !(forall q :: q in after ==> q in sel.remaining);
      }
    }
  }

  /** Policy 2 for one changed file. */
  function Policy2Step(ws: Workspace, sel: Selection, f: Path): Selection
  {
    match ws.containingPackage(ws.absPath(f))
    case None => sel
    case Some(pkg) =>
      if pkg !in sel.built && pkg in sel.remaining then Take(sel, pkg, Policy2Reason) else sel
  }

  /** Policy 2: each changed file's package is taken while it is remaining;
      files without a package are skipped. */
  function Policy2(ws: Workspace, sel: Selection, files: seq<Path>): Selection
    decreases |files|
  {
    if files == [] then sel else Policy2(ws, Policy2Step(ws, sel, files[0]), files[1..])
  }

  /** Some changed file lies in package `p`. */
  predicate Changed(ws: Workspace, files: seq<Path>, p: PackageId)
  {
    exists f :: f in files && ws.containingPackage(ws.absPath(f)) == Some(p)
  }

  /** Policy 2 takes exactly the remaining packages that contain a changed
      file, leaves every earlier reason alone, and skips unresolvable files. */
  lemma {:induction false} Policy2Effect(ws: Workspace, sel: Selection, files: seq<Path>)
    requires Disjoint(sel)
    ensures var r := Policy2(ws, sel, files);
            && Disjoint(r)
            && (forall q :: q in r.built <==> q in sel.built || (q in sel.remaining && Changed(ws, files, q)))
            && (forall q :: q in sel.built ==> r.built[q] == sel.built[q])
            && (forall q :: q in r.built && q !in sel.built ==> r.built[q] == Policy2Reason)
            && (forall q :: q in r.remaining <==> q in sel.remaining && !Changed(ws, files, q))
    decreases |files|
  {
    if files != [] {
      var f := files[0];
      var s := Policy2Step(ws, sel, f);
      assert files == [f] + files[1..];
      assert forall q :: Changed(ws, files, q)
                         <==> ws.containingPackage(ws.absPath(f)) == Some(q) || Changed(ws, files[1..], q) by {
        forall q ensures Changed(ws, files, q)
                         <==> ws.containingPackage(ws.absPath(f)) == Some(q) || Changed(ws, files[1..], q) {
          if Changed(ws, files, q) {
            var g :| g in files && ws.containingPackage(ws.absPath(g)) == Some(q);
            assert g == f || g in files[1..];
          }
        }
      }
      match ws.containingPackage(ws.absPath(f))
      case None =>
        Policy2Effect(ws, sel, files[1..]);
      case Some(pkg) =>
        if pkg !in sel.built && pkg in sel.remaining {
          TakeDisjoint(sel, pkg, Policy2Reason);
        }
        Policy2Effect(ws, s, files[1..]);
    }
  }

  /** One pass of Policy 3 for the public-changed package `a`, over a
      snapshot of the remaining list. */
  function Policy3Scan(ws: Workspace, sel: Selection, a: PackageId, snapshot: seq<PackageId>): Result<Selection, ResolveError>
    decreases |snapshot|
  {
    if snapshot == [] then Ok(sel)
    else match DependsOn(ws, snapshot[0], a)
      case Err(e) => Err(WalkFailed(e))
      case Ok(d) =>
        Policy3Scan(ws, if d then Take(sel, snapshot[0], Policy3Reason(a)) else sel, a, snapshot[1..])
  }

  /** Policy 3: one pass per public-changed package, in iteration order. */
  function Policy3(ws: Workspace, sel: Selection, order: seq<PackageId>): Result<Selection, ResolveError>
    decreases |order|
  {
    if order == [] then Ok(sel)
    else match Policy3Scan(ws, sel, order[0], sel.remaining)
      case Err(e) => Err(e)
      case Ok(s) => Policy3(ws, s, order[1..])
  }

  /** Policy 3 can only fail by a failed walk. */
  lemma {:induction false} Policy3FailsOnlyByWalk(ws: Workspace, sel: Selection, order: seq<PackageId>)
    ensures Policy3(ws, sel, order).Err? ==> Policy3(ws, sel, order).error.WalkFailed?
    decreases |order|
  {
    if order != [] {
      Policy3ScanFailsOnlyByWalk(ws, sel, order[0], sel.remaining);
      if Policy3Scan(ws, sel, order[0], sel.remaining).Ok? {
        Policy3FailsOnlyByWalk(ws, Policy3Scan(ws, sel, order[0], sel.remaining).value, order[1..]);
      }
    }
  }

  lemma {:induction false} Policy3ScanFailsOnlyByWalk(ws: Workspace, sel: Selection, a: PackageId, snapshot: seq<PackageId>)
    ensures Policy3Scan(ws, sel, a, snapshot).Err? ==> Policy3Scan(ws, sel, a, snapshot).error.WalkFailed?
    decreases |snapshot|
  {
    if snapshot != [] && DependsOn(ws, snapshot[0], a).Ok? {
      var d := DependsOn(ws, snapshot[0], a).value;
      Policy3ScanFailsOnlyByWalk(ws, if d then Take(sel, snapshot[0], Policy3Reason(a)) else sel, a, snapshot[1..]);
    }
  }

  lemma {:induction false} Policy3ScanEffect(ws: Workspace, sel: Selection, a: PackageId, snapshot: seq<PackageId>)
    requires Disjoint(sel) && Distinct(snapshot)
    requires forall q :: q in snapshot ==> q in sel.remaining
    ensures Policy3Scan(ws, sel, a, snapshot).Err? <==> exists q :: q in snapshot && ModuleFiles(ws, q).Err?
    ensures Policy3Scan(ws, sel, a, snapshot).Ok? ==>
              var r := Policy3Scan(ws, sel, a, snapshot).value;
              && Disjoint(r)
              && (forall q :: q in r.built <==> q in sel.built || (q in snapshot && DependsOn(ws, q, a) == Ok(true)))
              && (forall q :: q in sel.built ==> r.built[q] == sel.built[q])
              && (forall q :: q in r.built && q !in sel.built ==> r.built[q] == Policy3Reason(a))
              && (forall q :: q in r.remaining <==> q in sel.remaining && !(q in snapshot && DependsOn(ws, q, a) == Ok(true)))
    decreases |snapshot|
  {
    if snapshot != [] {
      var p := snapshot[0];
      assert snapshot == [p] + snapshot[1..];
      assert forall q :: q in snapshot <==> q == p || q in snapshot[1..];
      DistinctTail(snapshot);
      match DependsOn(ws, p, a)
      case Err(e) =>
      case Ok(d) =>
        var s := if d then Take(sel, p, Policy3Reason(a)) else sel;
        if d {
          TakeDisjoint(sel, p, Policy3Reason(a));
        }
        Policy3ScanEffect(ws, s, a, snapshot[1..]);
    }
  }

  lemma {:induction false} Policy3Effect(ws: Workspace, sel: Selection, order: seq<PackageId>)
    requires Disjoint(sel)
    ensures Policy3(ws, sel, order).Err?
            <==> order != [] && exists q :: q in sel.remaining && ModuleFiles(ws, q).Err?
    ensures Policy3(ws, sel, order).Ok? ==>
              var r := Policy3(ws, sel, order).value;
              && Disjoint(r)
              && (forall q :: q in r.built <==> q in sel.built || (q in sel.remaining && FirstDependency(ws, q, order).Some?))
              && (forall q :: q in sel.built ==> r.built[q] == sel.built[q])
              && (forall q :: q in r.built && q !in sel.built ==> r.built[q] == Policy3Reason(FirstDependency(ws, q, order).value))
              && (forall q :: q in r.remaining <==> q in sel.remaining && FirstDependency(ws, q, order).None?)
    decreases |order|
  {
    if order != [] {
      var a := order[0];
      Policy3ScanEffect(ws, sel, a, sel.remaining);
      match Policy3Scan(ws, sel, a, sel.remaining)
      case Err(e) =>
      case Ok(s) =>
        Policy3Effect(ws, s, order[1..]);
    }
  }

  /** The changed files as workspace-relative paths, for the platform filter. */
  function RelativeFiles(ws: Workspace, files: seq<Path>): seq<string>
  {
    seq(|files|, i requires 0 <= i < |files| => ws.toRelative(files[i]))
  }

  /** `get_packages_to_build(files, possible_packages, plat_func)` with the
      public-change packages iterated in `order`; the final state. */
  function Resolve(ws: Workspace, files: seq<Path>, possible: seq<PackageId>,
                   filter: (seq<string>, seq<PackageId>) -> seq<PackageId>,
                   order: seq<PackageId>): Result<Selection, ResolveError>
  {
    match Policy1(Selection(map[], possible), filter(RelativeFiles(ws, files), possible))
    case Err(e) => Err(e)
    case Ok(s1) => Policy3(ws, Policy2(ws, s1, files), order)
  }

  /** The first reason a candidate qualifies for, policy by policy: an
      independent statement of what the resolver computes. */
  function Verdict(ws: Workspace, files: seq<Path>, after: seq<PackageId>, order: seq<PackageId>, p: PackageId): Option<string>
  {
    if p in after then Some(Policy1Reason)
    else if Changed(ws, files, p) then Some(Policy2Reason)
    else match FirstDependency(ws, p, order)
      case Some(a) => Some(Policy3Reason(a))
      case None => None
  }

  /** The state Policy 3 starts from. */
  function BeforePolicy3(ws: Workspace, files: seq<Path>, possible: seq<PackageId>, after: seq<PackageId>): Result<Selection, ResolveError>
  {
    match Policy1(Selection(map[], possible), after)
    case Err(e) => Err(e)
    case Ok(s1) => Ok(Policy2(ws, s1, files))
  }

  lemma BeforePolicy3Effect(ws: Workspace, files: seq<Path>, possible: seq<PackageId>, after: seq<PackageId>)
    requires Distinct(possible)
    ensures BeforePolicy3(ws, files, possible, after).Ok?
            <==> Distinct(after) && forall a :: a in after ==> a in possible
    ensures BeforePolicy3(ws, files, possible, after).Ok? ==>
              var s2 := BeforePolicy3(ws, files, possible, after).value;
              && Disjoint(s2)
              && (forall q :: q in s2.remaining <==> q in possible && q !in after && !Changed(ws, files, q))
              && (forall q :: q in s2.built <==> q in possible && (q in after || Changed(ws, files, q)))
              && (forall q :: q in after ==> s2.built[q] == Policy1Reason)
              && (forall q :: q in s2.built && q !in after ==> s2.built[q] == Policy2Reason)
  {
    var s0 := Selection(map[], possible);
    Policy1Effect(s0, after);
    if Policy1(s0, after).Ok? {
      var s1 := Policy1(s0, after).value;
      Policy2Effect(ws, s1, files);
    }
  }

  /** For duplicate-free candidates the filter's answer is rejected exactly
      when it returns a repeat or a package that is not a candidate. */
  lemma ResolveRejectsFilter(ws: Workspace, files: seq<Path>, possible: seq<PackageId>,
                             filter: (seq<string>, seq<PackageId>) -> seq<PackageId>, order: seq<PackageId>)
    requires Distinct(possible)
    ensures var after := filter(RelativeFiles(ws, files), possible);
            var res := Resolve(ws, files, possible, filter, order);
            res.Err? && res.error.FilterReturnedDisallowed?
            <==> !(Distinct(after) && forall a :: a in after ==> a in possible)
  {
    var after := filter(RelativeFiles(ws, files), possible);
    BeforePolicy3Effect(ws, files, possible, after);
    Policy1Accepts(Selection(map[], possible), after);
    if BeforePolicy3(ws, files, possible, after).Ok? {
      var s2 := BeforePolicy3(ws, files, possible, after).value;
      Policy3Effect(ws, s2, order);
      Policy3FailsOnlyByWalk(ws, s2, order);
      assert Resolve(ws, files, possible, filter, order) == Policy3(ws, s2, order);
    }
  }

  /** The walk inside the dependency test aborts the resolution exactly when
      some public file changed and a package left after Policy 2 cannot be
      walked. */
  lemma ResolveWalkFailure(ws: Workspace, files: seq<Path>, possible: seq<PackageId>,
                           filter: (seq<string>, seq<PackageId>) -> seq<PackageId>, order: seq<PackageId>)
    requires Distinct(possible)
    ensures var after := filter(RelativeFiles(ws, files), possible);
            var res := Resolve(ws, files, possible, filter, order);
            res.Err? && res.error.WalkFailed?
            <==> && Distinct(after) && (forall a :: a in after ==> a in possible)
                 && order != []
                 && exists q :: q in possible && q !in after && !Changed(ws, files, q) && ModuleFiles(ws, q).Err?
  {
    var after := filter(RelativeFiles(ws, files), possible);
    BeforePolicy3Effect(ws, files, possible, after);
    Policy1Accepts(Selection(map[], possible), after);
    if BeforePolicy3(ws, files, possible, after).Ok? {
      var s2 := BeforePolicy3(ws, files, possible, after).value;
      Policy3Effect(ws, s2, order);
      Policy3FailsOnlyByWalk(ws, s2, order);
      assert Resolve(ws, files, possible, filter, order) == Policy3(ws, s2, order);
      if exists q :: q in possible && q !in after && !Changed(ws, files, q) && ModuleFiles(ws, q).Err? {
        var q :| q in possible && q !in after && !Changed(ws, files, q) && ModuleFiles(ws, q).Err?;
        assert q in s2.remaining;
      }
    }
  }

  /** For duplicate-free candidates, a successful resolution builds each
      candidate for its first reason (Policy 1 before 2 before 3, and in
      Policy 3 the first depended-on package in iteration order), keeps the
      rest remaining, and builds nothing that is not a candidate. */
  lemma ResolveVerdicts(ws: Workspace, files: seq<Path>, possible: seq<PackageId>,
                        filter: (seq<string>, seq<PackageId>) -> seq<PackageId>, order: seq<PackageId>)
    requires Distinct(possible)
    requires Resolve(ws, files, possible, filter, order).Ok?
    ensures var after := filter(RelativeFiles(ws, files), possible);
            var r := Resolve(ws, files, possible, filter, order).value;
            && Distinct(r.remaining)
            && (forall q :: q in r.built <==> q in possible && Verdict(ws, files, after, order, q).Some?)
            && (forall q :: q in r.built ==> r.built[q] == Verdict(ws, files, after, order, q).value)
            && (forall q :: q in r.remaining <==> q in possible && Verdict(ws, files, after, order, q).None?)
  {
    var after := filter(RelativeFiles(ws, files), possible);
    BeforePolicy3Effect(ws, files, possible, after);
    var s2 := BeforePolicy3(ws, files, possible, after).value;
    Policy3Effect(ws, s2, order);
    assert Resolve(ws, files, possible, filter, order) == Policy3(ws, s2, order);
    var r := Policy3(ws, s2, order).value;
    forall q
      ensures q in r.built <==> q in possible && Verdict(ws, files, after, order, q).Some?
      ensures q in r.built ==> r.built[q] == Verdict(ws, files, after, order, q).value
      ensures q in r.remaining <==> q in possible && Verdict(ws, files, after, order, q).None?
    {
    }
  }

  /** Restated as a partition: the keys and the remaining list split the
      candidates, and each key carries one reason. */
  lemma ResolvePartitions(ws: Workspace, files: seq<Path>, possible: seq<PackageId>,
                          filter: (seq<string>, seq<PackageId>) -> seq<PackageId>, order: seq<PackageId>)
    requires Distinct(possible)
    requires Resolve(ws, files, possible, filter, order).Ok?
    ensures var r := Resolve(ws, files, possible, filter, order).value;
            r.built.Keys !! Elems(r.remaining) && r.built.Keys + Elems(r.remaining) == Elems(possible)
  {
    ResolveVerdicts(ws, files, possible, filter, order);
  }
}
