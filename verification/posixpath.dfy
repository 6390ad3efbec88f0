/** The parts of Python's `posixpath` (`os.path` on POSIX) used to name models and index files. */
module PosixPath {
  import opened PyStr

  const Sep: char := '/'
  const ExtSep: char := '.'

  /** Every character of `s` is a dot (vacuously true of the empty string). */
  predicate AllDots(s: string) {
    forall i :: 0 <= i < |s| ==> s[i] == ExtSep
  }

  /** `os.path.basename(p)`: the longest suffix of `p` without a separator. */
  function BaseName(p: string): (r: string)
    ensures Sep !in r
    ensures |r| <= |p| && p[|p| - |r|..] == r
    ensures |r| == |p| || p[|p| - |r| - 1] == Sep
  {
    p[LastIndex(p, Sep) + 1..]
  }

  /** A separator-free suffix that is the whole path or follows a separator is the base name. */
  lemma BaseNameOfSuffix(dir: string, name: string)
    requires Sep !in name
    requires dir == [] || dir[|dir| - 1] == Sep
    ensures BaseName(dir + name) == name
  {
    var p := dir + name;
    forall j | |dir| - 1 < j < |p|
      ensures p[j] != Sep
    {
      assert p[j] == name[j - |dir|];
    }
    LastIndexUnique(p, Sep, |dir| - 1);
    assert p[|dir|..] == name;
  }

  /**
   * `os.path.splitext(p)`: splits `p` into (root, ext) at the last dot of its final component,
   * except that dots leading that component do not start an extension, so ".bashrc" and
   * "..pth" have none.
   */
  function SplitExt(p: string): (r: (string, string))
    ensures r.0 + r.1 == p
    ensures r.1 == [] || (r.1[0] == ExtSep && ExtSep !in r.1[1..] && Sep !in r.1)
  {
    var sepIndex := LastIndex(p, Sep);
    var dotIndex := LastIndex(p, ExtSep);
    if dotIndex > sepIndex && !AllDots(p[sepIndex + 1..dotIndex]) then
      assert p[..dotIndex] + p[dotIndex..] == p;
      (p[..dotIndex], p[dotIndex..])
    else
      (p, [])
  }

  /**
   * What `SplitExt` leaves as the stem: a non-empty extension is only split off when the stem's
   * final component holds a character other than a dot; and when nothing is split off, every
   * dot of the final component is preceded (within the component) by dots only.
   */
  lemma {:induction false} SplitExtLeadingDots(p: string)
    ensures SplitExt(p).1 != [] ==> !AllDots(BaseName(SplitExt(p).0))
    ensures SplitExt(p).1 == [] ==>
      forall k :: 0 <= k < |BaseName(p)| && BaseName(p)[k] == ExtSep ==> AllDots(BaseName(p)[..k])
  {
    var sepIndex := LastIndex(p, Sep);
    var dotIndex := LastIndex(p, ExtSep);
    var b := BaseName(p);
    assert b == p[sepIndex + 1..];
    if dotIndex > sepIndex && !AllDots(p[sepIndex + 1..dotIndex]) {
      var root := p[..dotIndex];
      assert root == p[..sepIndex + 1] + p[sepIndex + 1..dotIndex];
      BaseNameOfSuffix(p[..sepIndex + 1], p[sepIndex + 1..dotIndex]);
    } else {
      forall k | 0 <= k < |b| && b[k] == ExtSep
        ensures AllDots(b[..k])
      {
        assert p[sepIndex + 1 + k] == ExtSep;
        assert sepIndex + 1 + k <= dotIndex;
        forall i | 0 <= i < k
          ensures b[..k][i] == ExtSep
        {
          assert b[..k][i] == p[sepIndex + 1..dotIndex][i];
        }
      }
    }
  }

  /** `os.path.join(a, b)` for two components. */
  function Join(a: string, b: string): (r: string)
    ensures EndsWith(r, b)
  {
    if |b| > 0 && b[0] == Sep then
      assert b[|b| - |b|..] == b;
      b
    else if |a| == 0 || a[|a| - 1] == Sep then
      assert (a + b)[|a + b| - |b|..] == b;
      a + b
    else
      assert (a + [Sep] + b)[|a + [Sep] + b| - |b|..] == b;
      a + [Sep] + b
  }

  /** Joining a plain file name onto a directory keeps that name as the base name. */
  lemma JoinBaseName(a: string, b: string)
    requires Sep !in b
    ensures BaseName(Join(a, b)) == b
  {
    assert !(|b| > 0 && b[0] == Sep) by {
      if |b| > 0 {
        assert b[0] in b;
      }
    }
    if |a| == 0 || a[|a| - 1] == Sep {
      assert Join(a, b) == a + b;
      BaseNameOfSuffix(a, b);
    } else {
      assert Join(a, b) == a + [Sep] + b;
      BaseNameOfSuffix(a + [Sep], b);
    }
  }
}
