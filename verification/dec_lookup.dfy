/** Specification of `_parse_dec_for_package`: which DEC file a package
    directory's listing yields and what is read from it. */
module DecLookup {
  import opened Wrappers
  import opened Text
  import opened Environment

  /** A directory entry that is a package declaration file. */
  predicate IsDecName(entry: string)
  {
    EndsWith(Lower(entry), ".dec")
  }

  /** The entry the listing loop leaves in `path`: the last `.dec` entry in
      listing order, if any. */
  function LastDecEntry(entries: seq<string>): Option<string>
    decreases |entries|
  {
    if entries == [] then None
    else
      var n := |entries| - 1;
      if IsDecName(entries[n]) then Some(entries[n]) else LastDecEntry(entries[..n])
  }

  /** With no `.dec` entry nothing is chosen; otherwise the chosen entry is a
      `.dec` entry and no later entry is one. More than one `.dec` entry is
      not an error. */
  lemma {:induction false} LastDecEntryChoice(entries: seq<string>)
    ensures LastDecEntry(entries).None? <==> forall i :: 0 <= i < |entries| ==> !IsDecName(entries[i])
    ensures LastDecEntry(entries).Some? ==>
              exists i :: 0 <= i < |entries| && entries[i] == LastDecEntry(entries).value && IsDecName(entries[i])
                          && forall j :: i < j < |entries| ==> !IsDecName(entries[j])
    decreases |entries|
  {
    if entries != [] {
      var n := |entries| - 1;
      LastDecEntryChoice(entries[..n]);
      if !IsDecName(entries[n]) {
        assert forall i :: 0 <= i < n ==> entries[..n][i] == entries[i];
        if LastDecEntry(entries).Some? {
          var i :| 0 <= i < n && entries[..n][i] == LastDecEntry(entries).value && IsDecName(entries[..n][i])
                   && forall j :: i < j < n ==> !IsDecName(entries[..n][j]);
          assert forall j :: i < j < |entries| ==> !IsDecName(entries[j]);
        }
      }
    }
  }

  /** `_parse_dec_for_package(path_to_package)`, reduced to the include
      paths of the parsed DEC. `None` when the package path is None (the
      join inside the `try` then raises), when listing the directory
      raises, when there is no `.dec` entry, or when the chosen file has no
      workspace-relative path or is not a file. */
  function ParseDec(ws: Workspace, dir: Option<Path>): Option<seq<string>>
  {
    if dir.None? then None
    else match ws.listDir(dir.value)
      case None => None
      case Some(entries) =>
        match LastDecEntry(entries)
        case None => None
        case Some(entry) =>
          var path := Join(dir.value, entry);
          var relative := ws.toRelative(path);
          if relative == "" || !ws.isFile(path) then None
          else Some(ws.decIncludePaths(relative))
  }
}
