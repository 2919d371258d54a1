/** File names as the repository sees them: POSIX paths, relative to the working directory. */
module Paths {
  type Path = string

  /**
   * The last component of `p`, as `os.path.basename` computes it on POSIX:
   * everything after the last '/', or all of `p` when it has none (see BasenameSuffix).
   */
  function Basename(p: Path): (b: Path)
    ensures '/' !in b
    ensures '/' !in p ==> b == p
  {
    if p == [] then []
    else if p[|p| - 1] == '/' then []
    else
      assert '/' !in p ==> '/' !in p[..|p| - 1];
      assert p == p[..|p| - 1] + [p[|p| - 1]];
      Basename(p[..|p| - 1]) + [p[|p| - 1]]
  }

  /** The basename is a suffix of the path. */
  lemma {:induction false} BasenameIsSuffix(p: Path)
    ensures |Basename(p)| <= |p| && p[|p| - |Basename(p)|..] == Basename(p)
  {
    if p != [] && p[|p| - 1] != '/' {
      var front := p[..|p| - 1];
      BasenameIsSuffix(front);
      var j := |front| - |Basename(front)|;
      assert p == front + [p[|p| - 1]];
      assert p[j..] == front[j..] + [p[|p| - 1]];
    }
  }

  /** A basename shorter than its path follows a '/'. */
  lemma {:induction false} BasenameFollowsSlash(p: Path)
    ensures |Basename(p)| <= |p|
    ensures |Basename(p)| < |p| ==> p[|p| - |Basename(p)| - 1] == '/'
  {
    if p != [] && p[|p| - 1] != '/' {
      var front := p[..|p| - 1];
      BasenameFollowsSlash(front);
      assert |Basename(p)| == |Basename(front)| + 1;
      var j := |front| - |Basename(front)|;
      if j > 0 {
        assert p[j - 1] == front[j - 1];
      }
    }
  }

  /** The basename is a suffix of the path that is either all of it or follows a '/'. */
  lemma BasenameSuffix(p: Path)
    ensures |Basename(p)| <= |p| && p[|p| - |Basename(p)|..] == Basename(p)
    ensures |Basename(p)| < |p| ==> p[|p| - |Basename(p)| - 1] == '/'
  {
    BasenameIsSuffix(p);
    BasenameFollowsSlash(p);
  }

  /**
   * The basename is the only suffix free of '/' that starts the path or follows a '/':
   * it is "the text after the last slash" and nothing else.
   */
  lemma BasenameIsTextAfterLastSlash(p: Path, i: nat)
    requires i <= |p|
    requires '/' !in p[i..]
    requires i > 0 ==> p[i - 1] == '/'
    ensures Basename(p) == p[i..]
  {
    BasenameSuffix(p);
  }
}
