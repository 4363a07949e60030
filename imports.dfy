/** The import callback that `make_import_callback` builds over the library
    archive: the evaluator asks for `rel` as seen from directory `dir`, and
    the callback answers with the joined path and that archive entry's text. */
module Imports {
  import opened Results

  /** The opened library zip, entry name to decoded text. */
  type Archive = map<string, string>

  /** `Path(dir, rel).as_posix()` for plain paths: an absolute `rel` stands
      for itself, an empty `dir` adds nothing, and otherwise the two are
      joined by exactly one `/`. */
  function JoinPath(dir: string, rel: string): (p: string)
    ensures |rel| <= |p| && p[|p| - |rel|..] == rel
    ensures "/" <= rel || dir == "" ==> p == rel
    ensures !("/" <= rel) && dir != "" ==>
      dir <= p && |p| == |dir| + |rel| + (if dir[|dir| - 1] == '/' then 0 else 1) && p[|p| - |rel| - 1] == '/'
  {
    if "/" <= rel || dir == "" then rel
    else if dir[|dir| - 1] == '/' then dir + rel
    else dir + "/" + rel
  }

  /** `str()` of the RuntimeError that wraps zipfile's KeyError for a missing
      entry; the missing path can be read back from it. */
  function MissingEntry(path: string): (m: string)
    ensures |m| == |path| + 40 && m[24..|m| - 16] == path
  {
    "There is no item named '" + path + "' in the archive"
  }

  /** The callback closure, which holds nothing but the archive. */
  datatype Importer = Importer(archive: Archive)

  /** `import_callback(dir, rel)`: `(full_path, content)` of the archive
      entry at the joined path, or the RuntimeError raised when there is none. */
  function Import(imp: Importer, dir: string, rel: string): (r: Result<(string, string)>)
    ensures r.Ok? <==> JoinPath(dir, rel) in imp.archive
    ensures r.Ok? ==> r.value.0 == JoinPath(dir, rel) && r.value.1 == imp.archive[r.value.0]
    ensures r.Err? ==> r.msg == MissingEntry(JoinPath(dir, rel))
  {
    var fullPath := JoinPath(dir, rel);
    if fullPath in imp.archive then Ok((fullPath, imp.archive[fullPath]))
    else Err(MissingEntry(fullPath))
  }
}
