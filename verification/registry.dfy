/**
 * The model/index registry of mobile_gui.py: the `.pth` model names of the weights directory,
 * the `.index` paths found under the index directory, and the resolution of a model path to
 * the first index path that mentions its base name. Directory listing and walking are not
 * modelled: their results are parameters.
 */
module Registry {
  import opened Wrappers
  import opened PyStr
  import opened PosixPath

  const ModelSuffix: string := ".pth"
  const IndexSuffix: string := ".index"

  /** The names of `names` that end with `suffix`, in their original order. */
  function KeepEndingWith(names: seq<string>, suffix: string): (r: seq<string>)
    ensures |r| <= |names|
    ensures forall x :: x in r <==> x in names && EndsWith(x, suffix)
  {
    if |names| == 0 then []
    else if EndsWith(names[0], suffix) then [names[0]] + KeepEndingWith(names[1..], suffix)
    else KeepEndingWith(names[1..], suffix)
  }

  /** Each kept name is kept as often as it occurs in the input; no other name is kept. */
  lemma {:induction false} KeepEndingWithCounts(names: seq<string>, suffix: string)
    ensures forall x ::
      multiset(KeepEndingWith(names, suffix))[x] == if EndsWith(x, suffix) then multiset(names)[x] else 0
    decreases |names|
  {
    if |names| > 0 {
      assert names == [names[0]] + names[1..];
      KeepEndingWithCounts(names[1..], suffix);
    }
  }

  /** Filtering distributes over concatenation, so the kept names stay in input order. */
  lemma {:induction false} KeepEndingWithAppend(a: seq<string>, b: seq<string>, suffix: string)
    ensures KeepEndingWith(a + b, suffix) == KeepEndingWith(a, suffix) + KeepEndingWith(b, suffix)
    decreases |a|
  {
    if |a| == 0 {
      assert a + b == b;
    } else {
      assert (a + b)[0] == a[0];
      assert (a + b)[1..] == a[1..] + b;
      KeepEndingWithAppend(a[1..], b, suffix);
    }
  }

  /** Filtering twice by the same suffix keeps the same names as filtering once. */
  lemma {:induction false} KeepEndingWithIdempotent(names: seq<string>, suffix: string)
    ensures KeepEndingWith(KeepEndingWith(names, suffix), suffix) == KeepEndingWith(names, suffix)
    decreases |names|
  {
    if |names| > 0 {
      KeepEndingWithIdempotent(names[1..], suffix);
      if EndsWith(names[0], suffix) {
        var rest := KeepEndingWith(names[1..], suffix);
        assert ([names[0]] + rest)[0] == names[0];
        assert ([names[0]] + rest)[1..] == rest;
      }
    }
  }

  /**
   * mobile_gui.py:15: the model names, the `.pth` entries of the weights directory listing, in listing
   * order. `None` stands for a weights directory that does not exist, which yields no models.
   */
  function ModelFiles(listing: Option<seq<string>>): (r: seq<string>)
    ensures listing.None? ==> r == []
    ensures forall x :: x in r <==> listing.Some? && x in listing.value && EndsWith(x, ModelSuffix)
    ensures listing.Some? ==> forall x ::
      multiset(r)[x] == if EndsWith(x, ModelSuffix) then multiset(listing.value)[x] else 0
  {
    match listing
    case None => []
    case Some(names) =>
      KeepEndingWithCounts(names, ModelSuffix);
      KeepEndingWith(names, ModelSuffix)
  }

  /** One triple produced by `os.walk`: a directory path and the plain names of its files. */
  datatype WalkStep = WalkStep(root: string, dirs: seq<string>, files: seq<string>)

  /** The paths `os.path.join(root, name)` of every name, in order. */
  function JoinAll(root: string, names: seq<string>): seq<string>
  {
    seq(|names|, i requires 0 <= i < |names| => Join(root, names[i]))
  }

  /** mobile_gui.py:16-21: the joined path of every `.index` file of the walk, in walk order. */
  function IndexFiles(walk: seq<WalkStep>): (r: seq<string>)
    ensures forall x :: x in r ==> EndsWith(x, IndexSuffix)
  {
    if |walk| == 0 then []
    else
      var kept := KeepEndingWith(walk[0].files, IndexSuffix);
      var head := JoinAll(walk[0].root, kept);
      forall x | x in head
        ensures EndsWith(x, IndexSuffix)
      {
        var k :| 0 <= k < |head| && head[k] == x;
        EndsWithTransitive(x, kept[k], IndexSuffix);
      }
      head + IndexFiles(walk[1..])
  }

  /** One walk step contributes the joined `.index` files of its directory, in the order listed. */
  lemma IndexFilesOneStep(step: WalkStep)
    ensures IndexFiles([step]) == JoinAll(step.root, KeepEndingWith(step.files, IndexSuffix))
  {
  }

  /** The index list of a walk is the concatenation of the lists of its parts, so it keeps walk order. */
  lemma {:induction false} IndexFilesAppend(a: seq<WalkStep>, b: seq<WalkStep>)
    ensures IndexFiles(a + b) == IndexFiles(a) + IndexFiles(b)
    decreases |a|
  {
    if |a| == 0 {
      assert a + b == b;
    } else {
      assert (a + b)[0] == a[0];
      assert (a + b)[1..] == a[1..] + b;
      IndexFilesAppend(a[1..], b);
    }
  }

  /** A suffix of a suffix is a suffix. */
  lemma EndsWithTransitive(s: string, t: string, u: string)
    requires EndsWith(s, t) && EndsWith(t, u)
    ensures EndsWith(s, u)
  {
    assert s[|s| - |u|..] == s[|s| - |t|..][|t| - |u|..];
  }

  /** The index paths are exactly the joined `.index` files of the walk. */
  lemma {:induction false} IndexFilesMembership(walk: seq<WalkStep>, x: string)
    ensures x in IndexFiles(walk) <==>
      exists i, j :: 0 <= i < |walk| && 0 <= j < |walk[i].files|
        && EndsWith(walk[i].files[j], IndexSuffix) && x == Join(walk[i].root, walk[i].files[j])
    decreases |walk|
  {
    if |walk| > 0 {
      IndexFilesMembership(walk[1..], x);
      var kept := KeepEndingWith(walk[0].files, IndexSuffix);
      var head := JoinAll(walk[0].root, kept);
      assert IndexFiles(walk) == head + IndexFiles(walk[1..]);
      if x in head {
        var k :| 0 <= k < |head| && head[k] == x;
        assert kept[k] in walk[0].files;
        var j :| 0 <= j < |walk[0].files| && walk[0].files[j] == kept[k];
        assert EndsWith(walk[0].files[j], IndexSuffix) && x == Join(walk[0].root, walk[0].files[j]);
      }
      if x in IndexFiles(walk[1..]) {
        var i, j :| 0 <= i < |walk[1..]| && 0 <= j < |walk[1..][i].files|
          && EndsWith(walk[1..][i].files[j], IndexSuffix) && x == Join(walk[1..][i].root, walk[1..][i].files[j]);
        assert walk[1..][i] == walk[i + 1];
      }
      if exists i, j :: 0 <= i < |walk| && 0 <= j < |walk[i].files|
          && EndsWith(walk[i].files[j], IndexSuffix) && x == Join(walk[i].root, walk[i].files[j])
      {
        var i, j :| 0 <= i < |walk| && 0 <= j < |walk[i].files|
          && EndsWith(walk[i].files[j], IndexSuffix) && x == Join(walk[i].root, walk[i].files[j]);
        if i == 0 {
          var f := walk[0].files[j];
          assert f in kept;
          var k :| 0 <= k < |kept| && kept[k] == f;
          assert head[k] == x;
        } else {
          assert walk[1..][i - 1] == walk[i];
        }
      }
    }
  }

  /** mobile_gui.py:34: `os.path.splitext(os.path.basename(model_path))[0]`, the name index paths are matched on. */
  function ModelName(modelPath: string): (r: string)
    ensures Sep !in r
    ensures r <= BaseName(modelPath)
  {
    var parts := SplitExt(BaseName(modelPath));
    assert parts.0 <= parts.0 + parts.1;
    parts.0
  }

  /**
   * The model name is the final path component with its final extension removed, when the
   * component has a stem that is not all dots and an extension free of dots.
   */
  lemma ModelNameStripsExtension(dir: string, stem: string, ext: string)
    requires dir == [] || dir[|dir| - 1] == Sep
    requires Sep !in stem && Sep !in ext && ExtSep !in ext
    requires !AllDots(stem)
    ensures ModelName(dir + stem + [ExtSep] + ext) == stem
  {
    var name := stem + [ExtSep] + ext;
    assert dir + stem + [ExtSep] + ext == dir + name;
    assert Sep !in name by {
      assert name == stem + ([ExtSep] + ext);
    }
    BaseNameOfSuffix(dir, name);
    SplitExtOfStem(stem, ext);
  }

  /** The stem of `stem.ext` under the same conditions. */
  lemma SplitExtOfStem(stem: string, ext: string)
    requires Sep !in stem && Sep !in ext && ExtSep !in ext
    requires !AllDots(stem)
    ensures SplitExt(stem + [ExtSep] + ext).0 == stem
  {
    var name := stem + [ExtSep] + ext;
    assert Sep !in name by {
      assert name == stem + ([ExtSep] + ext);
    }
    assert LastIndex(name, Sep) == -1;
    forall j | |stem| < j < |name|
      ensures name[j] != ExtSep
    {
      assert name[j] == ext[j - |stem| - 1];
    }
    LastIndexUnique(name, ExtSep, |stem|);
    assert name[0..|stem|] == stem;
    assert name[..|stem|] == stem;
  }

  /** A component without any dot is its own model name. */
  lemma ModelNameWithoutExtension(dir: string, name: string)
    requires dir == [] || dir[|dir| - 1] == Sep
    requires Sep !in name && ExtSep !in name
    ensures ModelName(dir + name) == name
  {
    BaseNameOfSuffix(dir, name);
  }

  /** `xs[i]` is the first entry of `xs` that contains `name`. */
  ghost predicate FirstMatchAt(xs: seq<string>, name: string, i: int) {
    0 <= i < |xs| && Contains(xs[i], name) && forall j :: 0 <= j < i ==> !Contains(xs[j], name)
  }

  /** mobile_gui.py:35-38: the first entry of `xs`, in order, that contains `name`, or `None`. */
  function FirstContaining(xs: seq<string>, name: string): (r: Option<string>)
    ensures r.None? <==> forall i :: 0 <= i < |xs| ==> !Contains(xs[i], name)
    ensures r.Some? ==> exists i :: FirstMatchAt(xs, name, i) && xs[i] == r.value
  {
    if |xs| == 0 then None
    else if Contains(xs[0], name) then
      assert FirstMatchAt(xs, name, 0);
      Some(xs[0])
    else
      var r := FirstContaining(xs[1..], name);
      FirstMatchShift(xs, name, r);
      r
  }

  /** A first match in the tail is a first match in the whole list when the head does not match. */
  lemma FirstMatchShift(xs: seq<string>, name: string, r: Option<string>)
    requires |xs| > 0 && !Contains(xs[0], name)
    requires r.Some? ==> exists i :: FirstMatchAt(xs[1..], name, i) && xs[1..][i] == r.value
    ensures r.Some? ==> exists i :: FirstMatchAt(xs, name, i) && xs[i] == r.value
  {
    if r.Some? {
      var i :| FirstMatchAt(xs[1..], name, i) && xs[1..][i] == r.value;
      assert FirstMatchAt(xs, name, i + 1);
    }
  }

  /** mobile_gui.py:33-38: `find_matching_index`, with the module-level `index_files` as a parameter. */
  function FindMatchingIndex(modelPath: string, indexFiles: seq<string>): (r: Option<string>)
    ensures r.None? <==> forall i :: 0 <= i < |indexFiles| ==> !Contains(indexFiles[i], ModelName(modelPath))
    ensures r.Some? ==> r.value in indexFiles && Contains(r.value, ModelName(modelPath))
    ensures r.Some? ==>
      exists i :: FirstMatchAt(indexFiles, ModelName(modelPath), i) && indexFiles[i] == r.value
  {
    FirstContaining(indexFiles, ModelName(modelPath))
  }

  /** Entries after the first match never matter; without a match in `a` the search goes on into `b`. */
  lemma {:induction false} FirstContainingAppend(a: seq<string>, b: seq<string>, name: string)
    ensures FirstContaining(a + b, name) ==
      if FirstContaining(a, name).Some? then FirstContaining(a, name) else FirstContaining(b, name)
    decreases |a|
  {
    if |a| == 0 {
      assert a + b == b;
    } else {
      assert (a + b)[0] == a[0];
      assert (a + b)[1..] == a[1..] + b;
      FirstContainingAppend(a[1..], b, name);
    }
  }

  /** `dir/singerA.pth` names the model `singerA`. */
  lemma ModelNameExample()
    ensures ModelName("dir/singerA.pth") == "singerA"
  {
    assert "dir/singerA.pth" == "dir/" + "singerA" + [ExtSep] + "pth";
    assert !AllDots("singerA") by {
      assert "singerA"[0] != ExtSep;
    }
    ModelNameStripsExtension("dir/", "singerA", "pth");
  }

  /** A model whose base name occurs in the first index path resolves to that path. */
  lemma ResolvesToFirstEntry(modelPath: string, indexFiles: seq<string>, k: int)
    requires |indexFiles| > 0
    requires OccursAt(indexFiles[0], ModelName(modelPath), k)
    ensures FindMatchingIndex(modelPath, indexFiles) == Some(indexFiles[0])
  {
    ContainsIffOccurs(indexFiles[0], ModelName(modelPath));
  }

  /** The stem of a dot-free, separator-free name with a `.pth` suffix is that name. */
  lemma PthModelName(stem: string)
    requires Sep !in stem && ExtSep !in stem && |stem| > 0
    ensures ModelName(stem + ModelSuffix) == stem
  {
    assert stem + ModelSuffix == [] + stem + [ExtSep] + "pth";
    assert !AllDots(stem) by {
      assert stem[0] in stem;
    }
    ModelNameStripsExtension([], stem, "pth");
  }

  /**
   * Model `stem.pth` resolves to the first index path when that path contains `stem`, whatever
   * follows: `singerA.pth` with `archive/singerA_v2.index` first resolves to it, and so does
   * `singer.pth` with `idx/singer2.index` first, even when `idx/singer.index` comes later.
   */
  lemma ResolvesByStem(stem: string, before: string, after: string, rest: seq<string>)
    requires Sep !in stem && ExtSep !in stem && |stem| > 0
    ensures FindMatchingIndex(stem + ModelSuffix, [before + stem + after] + rest) == Some(before + stem + after)
  {
    var modelPath := stem + ModelSuffix;
    var path := before + stem + after;
    var indexFiles := [path] + rest;
    PthModelName(stem);
    assert path[|before|..|before| + |stem|] == stem;
    assert OccursAt(indexFiles[0], ModelName(modelPath), |before|);
    ResolvesToFirstEntry(modelPath, indexFiles, |before|);
  }

  /**
   * A model path ending in a separator has an empty base name, and the empty name is contained
   * in every path, so such a model resolves to the first index file, whatever it is.
   */
  lemma TrailingSeparatorMatchesFirst(modelPath: string, indexFiles: seq<string>)
    requires |modelPath| > 0 && modelPath[|modelPath| - 1] == Sep
    requires |indexFiles| > 0
    ensures ModelName(modelPath) == []
    ensures FindMatchingIndex(modelPath, indexFiles) == Some(indexFiles[0])
  {
  }
}
