/** Paths as the watchers see them, and `os.path.basename` on POSIX paths. */
module Paths {

  /** An absolute path string, as produced by `os.path.join(root, file)` or carried by `event.src_path`. */
  type Path = string

  /** The length of the last component of `p`: how many characters follow its last '/'. */
  function LastComponentLength(p: Path): (k: nat)
    ensures k <= |p|
    ensures forall i :: |p| - k <= i < |p| ==> p[i] != '/'
    ensures k < |p| ==> p[|p| - k - 1] == '/'
  {
    if p == [] || p[|p| - 1] == '/' then 0
    else 1 + LastComponentLength(p[..|p| - 1])
  }

  /** The last component of `p`: everything after its last '/'. */
  function Basename(p: Path): (name: string)
    ensures |name| <= |p| && name == p[|p| - |name|..]
    ensures '/' !in name
    ensures |name| < |p| ==> p[|p| - |name| - 1] == '/'
  {
    p[|p| - LastComponentLength(p)..]
  }

  /** A walk reports `os.path.join(root, file)`; its basename is the file name again. */
  lemma {:induction false} BasenameOfJoin(dir: Path, file: string)
    requires '/' !in file
    ensures Basename(dir + "/" + file) == file
  {
    var p := dir + "/" + file;
    var k := LastComponentLength(p);
    assert p[|dir|] == '/';
    assert forall i :: |dir| < i < |p| ==> p[i] == file[i - |dir| - 1];
    assert k == |file|;
    assert p[|p| - |file|..] == file;
  }
}
