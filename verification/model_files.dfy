/** Where `save_model` and `load_model` put a trained model: the base name of
    the given file, its final extension replaced by ".pt", joined to the
    current working directory. The working directory is a parameter and the
    files written by torch.save are a map from path to the saved object. */
module ModelFiles {
  import Seqs = Sequences

  // ------------------------------------------------------------ characters

  predicate NoChar(s: string, c: char) {
    forall k :: 0 <= k < |s| ==> s[k] != c
  }

  predicate OnlyDots(s: string) {
    forall k :: 0 <= k < |s| ==> s[k] == '.'
  }

  /** A prefix that a POSIX path may carry before its base name. */
  predicate IsDirPrefix(d: string) {
    d == [] || d[|d| - 1] == '/'
  }

  /** What os.path.splitext calls an extension, once found: a '.' followed
      by anything but '.' and '/'. */
  predicate IsExtension(ext: string) {
    && |ext| >= 1
    && ext[0] == '.'
    && forall k :: 1 <= k < |ext| ==> ext[k] != '.' && ext[k] != '/'
  }

  /** A last path component that an extension may follow: something other
      than a dot in it ("a", "a.b", ".a"), but no '/'. */
  predicate IsStem(stem: string) {
    NoChar(stem, '/') && !OnlyDots(stem)
  }

  // ----------------------------------------------------------- os.path

  /** Index of the last `c` in `s`, or -1 when there is none (str.rfind). */
  function RFind(s: string, c: char): (i: int)
    ensures -1 <= i < |s|
    ensures i >= 0 ==> s[i] == c
    ensures forall j :: i < j < |s| ==> s[j] != c
  {
    if s == [] then -1
    else if s[|s| - 1] == c then |s| - 1
    else RFind(s[..|s| - 1], c)
  }

  /** posixpath.basename: everything after the last '/'. */
  function Basename(p: string): string
  {
    p[RFind(p, '/') + 1..]
  }

  /** os.path.splitext on a POSIX path (genericpath._splitext): the
      extension starts at the last '.', provided that dot lies in the last
      path component and something other than a dot precedes it in that
      component. */
  function SplitExt(p: string): (string, string)
  {
    var sepIndex := RFind(p, '/');
    var dotIndex := RFind(p, '.');
    if dotIndex > sepIndex && !OnlyDots(p[sepIndex + 1..dotIndex]) then
      (p[..dotIndex], p[dotIndex..])
    else
      (p, "")
  }

  /** The name torch.save receives, without its directory: the stem of the
      base name of `filename` plus ".pt" (util.py lines 48 and 54). */
  function SaveFilename(filename: string): (name: string)
    ensures |name| >= 3 && name[|name| - 3] == '.' && name[|name| - 2] == 'p' && name[|name| - 1] == 't'
  {
    SplitExt(Basename(filename)).0 + ".pt"
  }

  /** The full path both functions hand to torch: `os.getcwd() + "/" + name`. */
  function ModelPath(cwd: string, filename: string): string
  {
    cwd + "/" + SaveFilename(filename)
  }

  /** What `load_model` can observe of torch.load: the saved object, or the
      error for a path that was never written. */
  datatype LoadResult<M> = Loaded(model: M) | NotFound(path: string)

  /** save_model(filename, decoder): writes `decoder` at the derived path in
      the working directory, overwriting any earlier model there. */
  function SaveModel<M>(files: map<string, M>, cwd: string, filename: string, decoder: M): (files': map<string, M>)
    ensures ModelPath(cwd, filename) in files' && files'[ModelPath(cwd, filename)] == decoder
    ensures files'.Keys == files.Keys + {ModelPath(cwd, filename)}
    ensures forall p :: p in files && p != ModelPath(cwd, filename) ==> files'[p] == files[p]
  {
    var path := ModelPath(cwd, filename);
    files[path := decoder]
  }

  /** load_model(filename): reads the object at the derived path, failing
      when no file is there. */
  function LoadModel<M>(files: map<string, M>, cwd: string, filename: string): (r: LoadResult<M>)
    ensures r.Loaded? <==> ModelPath(cwd, filename) in files
    ensures r.Loaded? ==> r.model == files[ModelPath(cwd, filename)]
    ensures r.NotFound? ==> r.path == ModelPath(cwd, filename)
  {
    var path := ModelPath(cwd, filename);
    if path in files then Loaded(files[path]) else NotFound(path)
  }

  // ---------------------------------------------------------------- lemmas

  /** RFind is pinned down by its contract: an index holding `c` (or -1)
      with no `c` after it is the result. */
  lemma RFindIs(s: string, c: char, i: int)
    requires -1 <= i < |s|
    requires i >= 0 ==> s[i] == c
    requires forall j :: i < j < |s| ==> s[j] != c
    ensures RFind(s, c) == i
  {
  }

  /** When the last '.' follows the last '/', what starts at that dot is an
      extension. */
  lemma ExtensionAfterLastDot(p: string)
    requires RFind(p, '.') > RFind(p, '/')
    ensures IsExtension(p[RFind(p, '.')..])
  {
    var dotIndex := RFind(p, '.');
    var ext := p[dotIndex..];
    assert forall k :: 0 <= k < |ext| ==> ext[k] == p[dotIndex + k];
  }

  /** The stem of a name without '/' is a prefix of it, and gaining ".pt"
      adds no '/'. */
  lemma SaveNameShape(base: string)
    requires NoChar(base, '/')
    ensures var root := SplitExt(base).0;
      && NoChar(root + ".pt", '/')
      && (root + ".pt")[..|root|] == root
      && root <= base
  {
    SplitExtShape(base);
    var root := SplitExt(base).0;
    var name := root + ".pt";
    assert forall k :: 0 <= k < |root| ==> root[k] == base[k];
    assert forall k :: 0 <= k < |name| ==> name[k] == if k < |root| then root[k] else ".pt"[k - |root|];
  }

  /** The parts of `dir + "/" + name` can be read back. */
  lemma JoinShape(dir: string, name: string)
    ensures var path := dir + "/" + name;
      && |path| > |dir| && path[..|dir|] == dir && path[|dir|] == '/'
      && path[|dir| + 1..] == name
  {
    var path := dir + "/" + name;
    assert forall k :: 0 <= k < |dir| ==> path[k] == dir[k];
    assert forall k :: 0 <= k < |name| ==> path[|dir| + 1 + k] == name[k];
  }

  /** The base name is the longest suffix of the path without a '/': what
      precedes it is empty or ends in '/'. */
  lemma BasenameShape(p: string)
    ensures var b := Basename(p);
      && |b| <= |p| && p == p[..|p| - |b|] + b
      && NoChar(b, '/')
      && (|b| < |p| ==> p[|p| - |b| - 1] == '/')
  {
    var b := Basename(p);
    assert forall k :: 0 <= k < |b| ==> b[k] == p[|p| - |b| + k];
  }

  /** Root and extension make up the path again, and an extension, when
      there is one, is a '.' followed by neither '.' nor '/'. */
  lemma SplitExtShape(p: string)
    ensures var r := SplitExt(p);
      && |r.0| + |r.1| == |p| && r.0 == p[..|r.0|] && r.1 == p[|r.0|..]
      && (r.1 != [] ==> IsExtension(r.1))
  {
    var sepIndex := RFind(p, '/');
    var dotIndex := RFind(p, '.');
    if dotIndex > sepIndex && !OnlyDots(p[sepIndex + 1..dotIndex]) {
      ExtensionAfterLastDot(p);
    }
  }

  /** A base name is its own base name. */
  lemma BasenameOfName(name: string)
    requires NoChar(name, '/')
    ensures Basename(name) == name
  {
    RFindIs(name, '/', -1);
  }

  /** Searching a concatenation from the end finds the occurrence in the
      second part first. */
  lemma {:induction false} RFindAppend(a: string, b: string, c: char)
    ensures RFind(a + b, c) == if RFind(b, c) >= 0 then |a| + RFind(b, c) else RFind(a, c)
    decreases |b|
  {
    if b == [] {
      assert a + b == a;
    } else if b[|b| - 1] != c {
      assert (a + b)[..|a + b| - 1] == a + b[..|b| - 1];
      RFindAppend(a, b[..|b| - 1], c);
    }
  }

  /** A directory prefix ends in its last '/'. */
  lemma RFindOfDirPrefix(d: string)
    requires IsDirPrefix(d)
    ensures RFind(d, '/') == |d| - 1
  {
  }

  /** Dropping past a prefix drops into what follows it. */
  lemma DropPastPrefix(d: string, p: string, n: nat)
    requires n <= |p|
    ensures (d + p)[|d| + n..] == p[n..]
  {
    assert forall k :: 0 <= k < |p| - n ==> (d + p)[|d| + n..][k] == p[n..][k];
  }

  /** The directory part of a path does not affect its base name. */
  lemma {:induction false} BasenameIgnoresDirectory(d: string, p: string)
    requires IsDirPrefix(d)
    ensures Basename(d + p) == Basename(p)
  {
    RFindAppend(d, p, '/');
    RFindOfDirPrefix(d);
    var n := RFind(p, '/') + 1;
    DropPastPrefix(d, p, n);
    assert Basename(d + p) == (d + p)[|d| + n..];
  }

  /** A concatenation avoids a character when both parts do. */
  lemma NoCharAppend(a: string, b: string, c: char)
    requires NoChar(a, c) && NoChar(b, c)
    ensures NoChar(a + b, c)
  {
    assert forall k :: 0 <= k < |a + b| ==> (a + b)[k] == if k < |a| then a[k] else b[k - |a|];
  }

  /** A name splits into its stem and its extension when the stem has
      something other than a dot and the extension is one dot followed by
      neither '.' nor '/'. */
  lemma {:induction false} SplitExtOfStemAndExt(stem: string, ext: string)
    requires IsStem(stem) && IsExtension(ext)
    ensures SplitExt(stem + ext) == (stem, ext)
  {
    var p := stem + ext;
    NoCharAppend(stem, ext, '/');
    RFindIs(p, '/', -1);
    assert forall j :: |stem| < j < |p| ==> p[j] == ext[j - |stem|];
    RFindIs(p, '.', |stem|);
    SplitAt(stem, ext);
  }

  /** A name whose only dots lead it has no extension: the whole name is the
      stem ("README", ".bashrc", "..", "..."). */
  lemma {:induction false} SplitExtOfLeadingDots(dots: string, rest: string)
    requires OnlyDots(dots)
    requires NoChar(rest, '/') && NoChar(rest, '.')
    ensures SplitExt(dots + rest) == (dots + rest, "")
  {
    var p := dots + rest;
    assert forall k :: 0 <= k < |dots| ==> p[k] == dots[k];
    assert forall k :: |dots| <= k < |p| ==> p[k] == rest[k - |dots|];
    RFindIs(p, '/', -1);
    var dotIndex := RFind(p, '.');
    assert dotIndex < |dots|;
    if dotIndex >= 0 {
      assert OnlyDots(p[0..dotIndex]) by {
        assert forall k :: 0 <= k < dotIndex ==> p[0..dotIndex][k] == p[k];
      }
    }
  }

  /** A concatenation splits back into its parts. */
  lemma SplitAt(a: string, b: string)
    ensures (a + b)[..|a|] == a && (a + b)[0..|a|] == a && (a + b)[|a|..] == b
  {
    assert forall k :: 0 <= k < |a| ==> (a + b)[k] == a[k];
    assert forall k :: 0 <= k < |b| ==> (a + b)[|a| + k] == b[k];
  }

  /** A name without '/' saves as its root plus ".pt", whatever directory it
      lies in. */
  lemma {:induction false} SaveFilenameOfName(d: string, name: string)
    requires IsDirPrefix(d) && NoChar(name, '/')
    ensures SaveFilename(d + name) == SplitExt(name).0 + ".pt"
  {
    BasenameIgnoresDirectory(d, name);
    BasenameOfName(name);
  }

  /** The save name of a file with an extension is its stem plus ".pt",
      whatever directory the file lies in. */
  lemma {:induction false} SaveFilenameOfStem(d: string, stem: string, ext: string)
    requires IsDirPrefix(d)
    requires IsStem(stem) && IsExtension(ext)
    ensures SaveFilename(d + stem + ext) == stem + ".pt"
  {
    Seqs.Associative(d, stem, ext);
    NoCharAppend(stem, ext, '/');
    SaveFilenameOfName(d, stem + ext);
    SplitExtOfStemAndExt(stem, ext);
  }

  /** The save name of a file without an extension is its whole base name
      plus ".pt", whatever directory the file lies in. */
  lemma {:induction false} SaveFilenameOfPlainName(d: string, dots: string, rest: string)
    requires IsDirPrefix(d)
    requires OnlyDots(dots)
    requires NoChar(rest, '/') && NoChar(rest, '.')
    ensures SaveFilename(d + dots + rest) == dots + rest + ".pt"
  {
    Seqs.Associative(d, dots, rest);
    NoCharAppend(dots, rest, '/');
    SaveFilenameOfName(d, dots + rest);
    SplitExtOfLeadingDots(dots, rest);
  }

  /** Only the final extension is replaced: "a.b.txt" is saved as
      "a.b.pt", whatever directory it lies in. */
  lemma {:induction false} SaveFilenameKeepsInnerDots(d: string, a: string, b: string, e: string)
    requires IsDirPrefix(d)
    requires a != [] && a[0] != '.' && NoChar(a, '/') && NoChar(b, '/')
    requires NoChar(e, '.') && NoChar(e, '/')
    ensures SaveFilename(d + a + "." + b + "." + e) == a + "." + b + ".pt"
  {
    var stem := a + "." + b;
    NoCharAppend(a, ".", '/');
    NoCharAppend(a + ".", b, '/');
    assert stem[0] == a[0];
    var ext := "." + e;
    assert IsExtension(ext) by {
      assert forall k :: 1 <= k < |ext| ==> ext[k] == e[k - 1];
    }
    Seqs.Associative(d + a + "." + b, ".", e);
    assert d + a + "." + b == d + stem by {
      Seqs.Associative(d, a, ".");
      Seqs.Associative(d, a + ".", b);
    }
    SaveFilenameOfStem(d, stem, ext);
  }

  /** What precedes ".pt" in the save name is a prefix of the base name:
      only an extension was removed. */
  lemma SaveFilenameFromBase(filename: string)
    ensures var name := SaveFilename(filename);
      && NoChar(name, '/')
      && name[..|name| - 3] <= Basename(filename)
  {
    BasenameShape(filename);
    SaveNameShape(Basename(filename));
  }

  /** The model file lies directly in the working directory: the path is
      the directory, one '/', and a name without '/'. */
  lemma ModelPathShape(cwd: string, filename: string)
    ensures var path := ModelPath(cwd, filename);
      && |path| > |cwd| && path[..|cwd|] == cwd && path[|cwd|] == '/'
      && path[|cwd| + 1..] == SaveFilename(filename)
      && NoChar(path[|cwd| + 1..], '/')
  {
    JoinShape(cwd, SaveFilename(filename));
    SaveFilenameFromBase(filename);
  }

  /** save_model and load_model derive the same path from a file name, so
      whatever save_model wrote under a name, load_model reads back. */
  lemma LoadAfterSave<M>(files: map<string, M>, cwd: string, filename: string, decoder: M)
    ensures LoadModel(SaveModel(files, cwd, filename, decoder), cwd, filename) == Loaded(decoder)
  {
  }

  /** The save name ignores the caller's directory: two paths that differ
      only in their directory part name the same model file. */
  lemma {:induction false} ModelPathIgnoresDirectory(cwd: string, d1: string, d2: string, name: string)
    requires IsDirPrefix(d1) && IsDirPrefix(d2)
    ensures SaveFilename(d1 + name) == SaveFilename(d2 + name)
    ensures ModelPath(cwd, d1 + name) == ModelPath(cwd, d2 + name)
  {
    BasenameIgnoresDirectory(d1, name);
    BasenameIgnoresDirectory(d2, name);
  }

  /** Consequently a model saved from "foo/bar.txt" is what load_model
      returns for "anything/bar.txt", and for any other extension of the
      same stem ("bar.csv"). */
  lemma {:induction false} LoadFromOtherDirectory<M>(files: map<string, M>, cwd: string, d1: string, d2: string,
                                                     stem: string, ext1: string, ext2: string, decoder: M)
    requires IsDirPrefix(d1) && IsDirPrefix(d2)
    requires IsStem(stem) && IsExtension(ext1) && IsExtension(ext2)
    ensures LoadModel(SaveModel(files, cwd, d1 + stem + ext1, decoder), cwd, d2 + stem + ext2) == Loaded(decoder)
  {
    SaveFilenameOfStem(d1, stem, ext1);
    SaveFilenameOfStem(d2, stem, ext2);
  }
}
