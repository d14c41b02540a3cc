/**
 * `os.path.basename` and `os.path.dirname` of Python's `posixpath`, which
 * split a path at its last `/`.
 */
module PosixPath {

  predicate AllSlashes(s: string) {
    forall i :: 0 <= i < |s| ==> s[i] == '/'
  }

  /** `p.rfind('/')`: the index of the last slash, or -1 when there is none. */
  function LastSlash(p: string): (i: int)
    ensures -1 <= i < |p|
    ensures i >= 0 ==> p[i] == '/'
    ensures forall j :: i < j < |p| ==> p[j] != '/'
    decreases |p|
  {
    if p == [] then -1
    else if p[|p| - 1] == '/' then |p| - 1
    else LastSlash(p[..|p| - 1])
  }

  /** Everything up to and including the last slash. */
  function Head(p: string): string {
    p[..LastSlash(p) + 1]
  }

  /** `os.path.basename(p)`: everything after the last slash. */
  function Basename(p: string): string {
    p[LastSlash(p) + 1..]
  }

  /** `s.rstrip('/')`. */
  function RStripSlashes(s: string): (r: string)
    ensures |r| <= |s| && r == s[..|r|] && AllSlashes(s[|r|..])
    ensures r != [] ==> r[|r| - 1] != '/'
    decreases |s|
  {
    if s != [] && s[|s| - 1] == '/' then RStripSlashes(s[..|s| - 1]) else s
  }

  /**
   * `os.path.dirname(p)`: the head, with its trailing slashes removed unless
   * the head consists of slashes only, which is kept as it is (`/`, `//`).
   */
  function Dirname(p: string): string {
    var head := Head(p);
    if head != [] && !AllSlashes(head) then RStripSlashes(head) else head
  }

  /**
   * The head and the base name put together give the path back; the base name
   * holds no slash; the directory name is the head without its trailing
   * slashes (or the whole head, when that is only slashes); and it is empty
   * exactly when the path has no slash.
   */
  lemma SplitPath(p: string)
    ensures Head(p) + Basename(p) == p
    ensures Head(p) == [] || Head(p)[|Head(p)| - 1] == '/'
    ensures '/' !in Basename(p)
    ensures |Dirname(p)| <= |Head(p)| && Dirname(p) == Head(p)[..|Dirname(p)|]
    ensures AllSlashes(Head(p)[|Dirname(p)|..])
    ensures Dirname(p) == [] <==> '/' !in p
    ensures Dirname(p) != [] && !AllSlashes(Dirname(p)) ==> Dirname(p)[|Dirname(p)| - 1] != '/'
    ensures AllSlashes(Head(p)) ==> Dirname(p) == Head(p)
  {
    var i := LastSlash(p);
    var head := Head(p);
    assert head + Basename(p) == p;
    if i >= 0 {
      assert head[i] == '/';
      assert '/' in p by {
        assert p[i] == '/';
      }
    } else {
      assert p[0..] == p;
      assert head == [];
    }
  }
}
