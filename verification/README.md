# Package resolver of `edk2_pr_eval`

A Dafny model of `DiffToPackageResolver` from
`edk2toolext/invocables/edk2_pr_eval.py`. Given the files changed by a pull
request and the candidate packages, the resolver returns a dictionary. It maps
each package that must be built to the first reason it qualified. It applies
three ordered policies to a shrinking list of remaining packages:

- **Policy 1, platform filter.** Every package the platform's
  `FilterPackagesToTest` returns is built.
- **Policy 2, changed package.** Every package that contains a changed file is
  built.
- **Policy 3, dependants of public changes.** Every package is built whose
  modules use a package with a changed public file.

The model also covers:

- the public-file test and its per-instance DEC cache;
- the DEC lookup inside a package directory;
- the INF dependency test;
- the directory walk with its argument checks;
- the fallback in `Edk2PrEval.Go` when the diff fails;
- the default, identity platform filter.

Layout:

- `wrappers.dfy`: `Option` and `Result`.
- `lists.dfy`: `list.remove` as `RemoveFirst`, `Distinct`, and a de-duplication.
- `text.dfy`: ASCII lower-casing, `startswith`/`endswith`/`in` on strings,
  and decimal formatting of integers.
- `environment.dfy`: what the resolver reads from outside, as the `Workspace`
  datatype. This covers `Edk2Path`, `os.listdir`/`os.walk`/`isfile`/`isdir`
  and the parsers' `IncludePaths`/`PackagesUsed`. A call that raises becomes
  `None`.
- `dir_walk.dfy`, `dec_lookup.dfy` and `policies.dfy`: specification
  functions for the walk, the DEC lookup, the public-file test, the dependency
  test and the three policies. Each comes with lemmas that characterise it
  independently.
- `pr_eval.dfy`:
  - the `DiffToPackageResolver` class, with its `parsedDecCache` field and
    loop methods, each proved equal to the specification function;
  - `Go`.
- `settings.dfy`: the default platform filter.

Some behaviour is modelled as the code has it, where one might expect
otherwise:

- **An empty diff does not give an empty result.** Policy 1 still runs, and
  the default filter returns every candidate (`DefaultFilterBuildsEverything`).
- **Any `.dec` file is public**, not only the package's own manifest, as long
  as its package has a DEC (`PublicFileCases`).
- **The last `.dec` entry in listing order is the DEC.** More than one is not
  an error (`LastDecEntryChoice`).
- **The public-change packages are visited in whatever order Python's `set`
  gives.** It is modelled as an arbitrary duplicate-free ordering of them
  (`IsSetOrder`), not a sorted one. That order decides which Policy 3 reason a
  package gets.
- **The dependency test is a string-prefix test.** For example, `MdePkg` also
  matches `MdePkgX/...`.
- **A failed walk aborts the whole resolution.** It raises `ValueError` when a
  remaining package has no absolute directory. The walk inside the dependency
  test can fail like this, and the error propagates out of
  `get_packages_to_build` (`ResolveWalkFailure`).

## Model

| member | source | states |
|---|---|---|
| PrEval.DefaultFilterBuildsEverything | edk2toolext/invocables/edk2_pr_eval.py:25-35 | with the default filter (which does no filtering) feeding Policy 1 (:184-189), whatever the files (an empty diff included), every candidate is built for the Policy 1 reason and nothing remains |
| PrEval.Policy1TakesAll | edk2toolext/invocables/edk2_pr_eval.py:185-189 | when the filter returns the remaining list itself, Policy 1 marks all of it with the Policy 1 reason and empties the list |
| PrEval.Policy2NothingRemaining | edk2toolext/invocables/edk2_pr_eval.py:194-205 | with nothing remaining, Policy 2 changes nothing |
| PrEval.Policy3NothingRemaining | edk2toolext/invocables/edk2_pr_eval.py:233-237 | with nothing remaining, Policy 3 changes nothing and never walks a package |
| PrEval.Go | edk2toolext/invocables/edk2_pr_eval.py:88-97 | rc 0: the result is the resolver's result on the diff, computed by a fresh resolver; otherwise every requested package, and only those, maps to "Policy 0 - Failed to diff (rc)" |
| PrEval.FailedDiffReasonInjective | edk2toolext/invocables/edk2_pr_eval.py:97 | different diff exit codes give different Policy 0 reasons |
| Text.NatToDecimalRoundTrip | edk2toolext/invocables/edk2_pr_eval.py:97 | the decimal digits of a natural number read back as that number |
| Text.IntToDecimalRoundTrip | edk2toolext/invocables/edk2_pr_eval.py:97 | `f"{rc}"` of any integer, sign included, reads back as that integer |
| PrEval.DiffToPackageResolver.constructor | edk2toolext/invocables/edk2_pr_eval.py:129-132 | a new resolver has an empty DEC cache, which is trivially consistent |
| PrEval.DiffToPackageResolver.GetPackagesToBuild | edk2toolext/invocables/edk2_pr_eval.py:167-239 | the dictionary (or the error raised) is the three policies' result, for a duplicate-free ordering of the public-change packages; the result does not depend on what was cached before; the cache stays consistent and gains an entry for each package containing a changed file, unless Policy 1 raised first |
| PrEval.DiffToPackageResolver.ApplyPlatformFilter | edk2toolext/invocables/edk2_pr_eval.py:184-189 | the Policy 1 loop computes Policy 1 on the candidate list, raising at the first package no longer remaining |
| Policies.Policy1Accepts | edk2toolext/invocables/edk2_pr_eval.py:184-189 | Policy 1 succeeds iff the filter asks for no package more often than the remaining list holds it (so a repeat of a taken package raises); its only error is the disallowed-package `ValueError` |
| Policies.Policy1Effect | edk2toolext/invocables/edk2_pr_eval.py:184-189 | on duplicate-free state, Policy 1 succeeds iff the filter returns distinct remaining packages; it then marks exactly those with the Policy 1 reason, keeps earlier reasons, and removes exactly those from the remaining list |
| Policies.ResolveRejectsFilter | edk2toolext/invocables/edk2_pr_eval.py:184-187 | for distinct candidates, `get_packages_to_build` raises the filter's `ValueError` iff the filter returns a repeat or a package that is not a candidate |
| PrEval.DiffToPackageResolver.ApplyChangedPackages | edk2toolext/invocables/edk2_pr_eval.py:194-205 | the Policy 2 loop computes Policy 2 on the state Policy 1 left |
| Policies.Policy2Effect | edk2toolext/invocables/edk2_pr_eval.py:194-205 | Policy 2 adds exactly the remaining packages that contain a changed file, with the Policy 2 reason; it keeps every earlier reason, skips files whose lookup fails, and never adds a non-candidate |
| PrEval.DiffToPackageResolver.CollectPublicChanges | edk2toolext/invocables/edk2_pr_eval.py:213-226 | the first Policy 3 loop appends, in file order, the package of every public changed file; every package it looks up ends up in the cache, and the cache stays consistent |
| PrEval.DiffToPackageResolver.CollectOne | edk2toolext/invocables/edk2_pr_eval.py:216-226 | one turn of that loop appends the file's package iff the file has a package and is public, and caches that package |
| Policies.PublicPackagesMembers | edk2toolext/invocables/edk2_pr_eval.py:216-226 | a package is in the public-change list iff some changed file in it is public |
| Lists.Dedup | edk2toolext/invocables/edk2_pr_eval.py:228 | a duplicate-free list with the same elements, so some ordering of `list(set(xs))` always exists |
| PrEval.DiffToPackageResolver.ApplyDependents | edk2toolext/invocables/edk2_pr_eval.py:233-237 | the outer Policy 3 loop computes Policy 3 over the public-change packages in iteration order |
| PrEval.DiffToPackageResolver.DependencyPass | edk2toolext/invocables/edk2_pr_eval.py:234-237 | the inner loop over a snapshot of the remaining list marks and removes every package that depends on the public-changed package, and raises when a walk fails |
| Policies.Policy3ScanEffect | edk2toolext/invocables/edk2_pr_eval.py:234-237 | one pass fails iff some package in the snapshot cannot be walked; otherwise it adds exactly the snapshot packages that depend on `a`, with reason "Policy 3 - Package depends on a", and keeps earlier reasons |
| Policies.Policy3Effect | edk2toolext/invocables/edk2_pr_eval.py:233-237 | Policy 3 fails iff some public package changed and a remaining package cannot be walked; otherwise a remaining package is added iff it depends on some public-changed package, naming the first in iteration order, and stays remaining otherwise |
| Policies.Policy3FailsOnlyByWalk | edk2toolext/invocables/edk2_pr_eval.py:233-237 | Policy 3 can fail only through a failed walk |
| Policies.Policy3ScanFailsOnlyByWalk | edk2toolext/invocables/edk2_pr_eval.py:234-237 | one dependency pass can fail only through a failed walk |
| Policies.FirstDependencyIsFirst | edk2toolext/invocables/edk2_pr_eval.py:233-236 | the package named by the Policy 3 reason is one the package depends on, and none before it in iteration order is; there is none iff it depends on none of them |
| Policies.ResolveWalkFailure | edk2toolext/invocables/edk2_pr_eval.py:233-237 | for distinct candidates, the walk's `ValueError` escapes iff the filter is accepted, some public file changed, and some candidate left after Policy 2 cannot be walked |
| Policies.BeforePolicy3Effect | edk2toolext/invocables/edk2_pr_eval.py:174-205 | after Policies 1 and 2 the remaining list is the candidates neither returned by the filter nor changed; the keys are the rest, with the Policy 1 reason for the filter's packages and the Policy 2 reason for the others |
| Policies.ResolveVerdicts | edk2toolext/invocables/edk2_pr_eval.py:167-239 | for distinct candidates, each candidate is built for its first reason (Policy 1 before 2 before 3, and the first depended-on package in Policy 3) or stays remaining when it has none; nothing else is built |
| Policies.ResolvePartitions | edk2toolext/invocables/edk2_pr_eval.py:174-239 | the dictionary keys and the remaining list are disjoint and together make up the candidates |
| Policies.ReasonsDistinct | edk2toolext/invocables/edk2_pr_eval.py:188-236 | the three reasons differ, and a Policy 3 reason determines the package it names |
| Policies.TakeDisjoint | edk2toolext/invocables/edk2_pr_eval.py:188-189 | marking a remaining package and removing it keeps the keys and the remaining list disjoint and duplicate-free, and removes exactly that package |
| Lists.RemoveFirst | edk2toolext/invocables/edk2_pr_eval.py:189 | `list.remove` removes one occurrence: the multiset loses exactly that element |
| Lists.RemoveFirstDistinct | edk2toolext/invocables/edk2_pr_eval.py:189 | on a duplicate-free list, `remove(x)` leaves a duplicate-free list without `x` and with all the other elements |
| PrEval.DiffToPackageResolver.IsPublicFile | edk2toolext/invocables/edk2_pr_eval.py:292-329 | the answer is the public-file test; the package's DEC is parsed and cached (None included) only on its first lookup, and the other entries are unchanged |
| Policies.PublicFileCases | edk2toolext/invocables/edk2_pr_eval.py:315-327 | in a package that has a DEC, a file is public iff its slash-normalised path contains `pkg/include/` for a declared include path or it ends in `.dec` (any `.dec`, not only the package's own) |
| Policies.NoDecNoPublicFiles | edk2toolext/invocables/edk2_pr_eval.py:297-313 | a file whose package lookup fails, or whose package has no DEC, is not public |
| PrEval.DiffToPackageResolver.ParseDecForPackage | edk2toolext/invocables/edk2_pr_eval.py:263-290 | the listing loop and the checks compute the DEC lookup: no path, a listing that raises, no `.dec` entry, no relative path, or not a file give None |
| DecLookup.LastDecEntryChoice | edk2toolext/invocables/edk2_pr_eval.py:266-271 | no entry is chosen iff no entry ends in `.dec` (any case); otherwise the chosen one ends in `.dec` and no later one does |
| PrEval.DiffToPackageResolver.DoesPkgDependOnPackage | edk2toolext/invocables/edk2_pr_eval.py:241-261 | the early-return loops compute the dependency test, and raise the walk's error |
| Policies.DependsOnCases | edk2toolext/invocables/edk2_pr_eval.py:241-261 | the test raises iff the package's path is missing, not absolute, or not a directory; it is a prefix test (a match for `s + t` is one for `s`); a package with no modules depends on nothing |
| PrEval.DiffToPackageResolver.WalkDirForFiletypes | edk2toolext/invocables/edk2_pr_eval.py:331-370 | the argument checks and the nested loops compute the walk specification |
| PrEval.DiffToPackageResolver.LowerEach | edk2toolext/invocables/edk2_pr_eval.py:346-353 | the `lower()` loops lower-case every item, in order |
| PrEval.DiffToPackageResolver.DirHitsOf | edk2toolext/invocables/edk2_pr_eval.py:357-368 | the loop over one directory's files appends each file's hits in listing order |
| PrEval.DiffToPackageResolver.FileHitsOf | edk2toolext/invocables/edk2_pr_eval.py:358-368 | the extension and ignore loops append a file once per matching extension unless an ignore prefix matches |
| DirWalk.WalkDirResult | edk2toolext/invocables/edk2_pr_eval.py:334-368 | the walk raises iff the extensions are not a list or the directory is None, relative or not a directory; otherwise a path is returned iff it joins a visited directory with a file whose lower-cased name ends with a lower-cased extension and starts with no lower-cased ignore prefix |
| DirWalk.FileHitsCount | edk2toolext/invocables/edk2_pr_eval.py:358-368 | a file is returned once per matching extension, and only as its own joined path |
| DirWalk.FileHitsMembers | edk2toolext/invocables/edk2_pr_eval.py:358-368 | a file's hits contain exactly its joined path, when it matches an extension and no ignore prefix |
| DirWalk.DirHitsMembers | edk2toolext/invocables/edk2_pr_eval.py:357-368 | one directory's hits are exactly the joined paths of its kept files |
| DirWalk.WalkHitsMembers | edk2toolext/invocables/edk2_pr_eval.py:356-368 | the walk's hits are exactly the joined paths of the kept files of the visited directories |
| DirWalk.KeptLowered | edk2toolext/invocables/edk2_pr_eval.py:346-363 | comparing against the pre-lowered lists is the same as lower-casing both sides |

## Left out

- `get_files_that_changed_in_this_pr` (the `git diff` through `RunCmd`) is not part of this model. Its exit code and file list are parameters of `Go`.
- `Edk2Path` is not part of this model. Its three path translations are arbitrary functions of `Workspace`, and an exception from `GetContainingPackage` becomes `None`.
- A lookup that returns `None` instead of raising is treated like one that raised.
- `GetEdk2RelativePathFromAbsolutePath` is a total function to strings. Its `None` failure value is not modelled separately from a non-empty path.
- `DecParser` and `InfParser` are not part of this model. Only their `IncludePaths` and `PackagesUsed` outputs are modelled, as given sequences, and their parse errors are left out.
- The file system (`os.listdir`, `os.walk`, `os.path.isfile`, `os.path.isdir`, `os.path.abspath`) consists of given functions. An `os.listdir` that raises becomes `None`.
- The walk's `isinstance(extensionlist, list)` check is modelled as an `Option`. `None` stands for "not a list".
- Paths follow POSIX rules: `isabs` means starting with `/`, plus the `posixpath.join` rules. Windows drive letters are not modelled.
- `lower()` is ASCII lower-casing. Unicode case mapping is not modelled.
- The order of Python's `set` is not modelled. `GetPackagesToBuild` and `Go` return the order they used, as a ghost value that satisfies `IsSetOrder`.
- Dictionary insertion order is not modelled. The result is a Dafny `map`, so the printed order of the report and the CSV is not captured.
- A DEC file that changes after its package was cached is not modelled. The workspace is fixed for the resolver's lifetime, so a stale cache entry cannot arise in the model; `Go` builds a fresh resolver on every run.
- Logging, the command-line options, the report printing and the format strings in `Go` are not part of this model.
- `GetPackagesToBuild`, `Go`: a raised `ValueError` is returned as an `Err` value, not as an exception that unwinds the caller.
- `GetPackagesToBuild`: when the filter's `ValueError` is raised, the model states only that the cache is unchanged. The partly filled local dictionary is discarded, as in the source.
