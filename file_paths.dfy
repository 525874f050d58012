/**
 * The pure string parts of `BaseFile.files_matching_path` (the glob pattern
 * for a directory) and `BaseFile._ensure_directories_exist` (the directory to
 * create). Whether a path is a directory is a fact about the file system and
 * comes in as a parameter.
 */
module FilePaths {
  import opened Wrappers
  import opened Text

  /** A directory path with at most one trailing `/` removed. */
  function WithoutTrailingSlash(path: string): string {
    if EndsWith(path, "/") then path[..|path| - 1] else path
  }

  /** The argument given to `glob.glob`: a recursive pattern for a directory, the path itself otherwise. */
  function GlobPattern(path: string, isDirectory: bool, extension: string): (r: string)
    ensures isDirectory ==> r == WithoutTrailingSlash(path) + "/**/*." + extension
    ensures !isDirectory ==> r == path
  {
    if isDirectory then
      if EndsWith(path, "/") then path + "**/*." + extension
      else path + "/" + "**/*." + extension
    else path
  }

  /** A directory is globbed the same way with or without its trailing `/`. */
  lemma GlobIgnoresTrailingSlash(dir: string, extension: string)
    requires !EndsWith(dir, "/")
    ensures GlobPattern(dir + "/", true, extension) == GlobPattern(dir, true, extension)
  {
    assert (dir + "/")[..|dir|] == dir;
  }

  lemma {:induction false} JoinLast(parts: seq<string>, sep: string)
    requires |parts| >= 2
    ensures Join(parts, sep) == Join(parts[..|parts| - 1], sep) + sep + parts[|parts| - 1]
  {
    if |parts| > 2 {
      JoinLast(parts[1..], sep);
      assert parts[1..][..|parts| - 2] == parts[..|parts| - 1][1..];
    }
  }

  /**
   * The directory `os.makedirs` is asked to create: the path up to its last
   * `/`, or nothing when the path has no `/`.
   */
  function ParentDirectory(path: string): (r: Option<string>)
    ensures r.None? <==> !Occurs(path, "/")
    ensures r.Some? ==> exists name :: path == r.value + "/" + name && !Occurs(name, "/")
  {
    var parts := Split(path, "/");
    SplitJoinRoundTrip(path, "/");
    SplitPartsFree(path, "/");
    if |parts| - 1 == 0 then
      None
    else
      JoinLast(parts, "/");
      var parent := Join(parts[..|parts| - 1], "/");
      assert parts[|parts| - 1] in parts;
      assert path[|parent|..|parent| + 1] == "/";
      assert StartsAt(path, "/", |parent|);
      Some(parent)
  }
}
