/** What the resolver sees of its surroundings: the EDK2 path service, the
    file system and the manifest parsers, each reduced to the values the
    resolver reads from it. A call that raises becomes `None`. */
module Environment {
  import opened Wrappers
  import opened Text

  /** An absolute or workspace-relative file-system path. */
  type Path = string

  /** A workspace-relative package name such as `MdePkg`. */
  type PackageId = string

  /** One directory visited by `os.walk`: its path and the names of the
      files directly inside it. */
  datatype WalkStep = WalkStep(root: Path, files: seq<string>)

  datatype Workspace = Workspace(
    /** `Edk2Path.GetContainingPackage`; `None` when it raises. */
    containingPackage: Path -> Option<PackageId>,
    /** `Edk2Path.GetEdk2RelativePathFromAbsolutePath`. */
    toRelative: Path -> string,
    /** `Edk2Path.GetAbsolutePathOnThisSytemFromEdk2RelativePath`;
        `None` when it returns None. */
    toAbsolute: PackageId -> Option<Path>,
    /** `os.path.abspath` */
    absPath: Path -> Path,
    /** `os.listdir`; `None` when it raises. */
    listDir: Path -> Option<seq<string>>,
    /** `os.path.isfile` */
    isFile: Path -> bool,
    /** `os.path.isdir` */
    isDir: Path -> bool,
    /** `os.walk`, top-down, one step per directory visited. */
    walk: Path -> seq<WalkStep>,
    /** `DecParser.IncludePaths` of the DEC at a workspace-relative path. */
    decIncludePaths: string -> seq<string>,
    /** `InfParser.PackagesUsed` of the INF at an absolute path. */
    packagesUsed: Path -> seq<string>
  )

  /** `os.path.isabs` with POSIX rules. */
  predicate IsAbs(p: Path)
  {
    |p| > 0 && p[0] == '/'
  }

  /** `os.path.join(a, b)` with POSIX rules. */
  function Join(a: Path, b: string): Path
  {
    if |b| > 0 && b[0] == '/' then b
    else if a == [] || a[|a| - 1] == '/' then a + b
    else a + "/" + b
  }
}
