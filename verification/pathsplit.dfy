/**
 `FilePathSplit` (src/tools.cpp:224-235): cut a file path after its last
 backslash into a directory part and a file name.
 */
module PathSplit {
  import opened CppString

  /**
   Split `filePath` after its last backslash. Only a backslash separates:
   a `/` stays in the file name. Without a backslash the directory part is
   empty; otherwise it keeps the backslash at its end.
   */
  function FilePathSplit(filePath: Str): (r: (string, string))
    ensures r.0 + r.1 == filePath
    ensures '\\' !in r.1
    ensures '\\' !in filePath ==> r.0 == [] && r.1 == filePath
    ensures '\\' in filePath ==> |r.0| > 0 && r.0[|r.0| - 1] == '\\'
  {
    var pos := FindLastOf(filePath, '\\');
    if pos != NPOS then
      var dir := filePath[..pos + 1];
      var file := filePath[pos + 1..];
      assert forall i | 0 <= i < |file| :: file[i] == filePath[pos + 1 + i];
      (dir, file)
    else
      ("", filePath)
  }

  /**
   The split is the only one of its kind: any directory part that is empty
   or ends in a backslash, followed by a file name without a backslash,
   that together spell the path, is the one `FilePathSplit` returns.
   */
  lemma FilePathSplitUnique(filePath: Str, dir: string, file: string)
    requires dir + file == filePath
    requires '\\' !in file
    requires dir == [] || dir[|dir| - 1] == '\\'
    ensures FilePathSplit(filePath) == (dir, file)
  {
    var (d, f) := FilePathSplit(filePath);
    if dir == [] {
      assert file == filePath;
    } else {
      assert filePath[|dir| - 1] == '\\';
      assert '\\' in filePath;
      assert d == filePath[..|d|] && dir == filePath[..|dir|];
    }
  }
}
