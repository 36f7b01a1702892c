/**
 * The helpers of src/tagfarm/utils.py (main.py:13-65 holds a verbatim copy
 * of all but `readlink_or_broken`): directory creation, locating the media
 * root, the content index, link predicates, link targets and tagging a file.
 */
module Utils {
  import opened FileSystem

  /** The reserved directory under the media root that holds one directory per tag. */
  const ByTag: Name := "by-tag"

  function ByTagDir(root: Path): Path
  {
    root + [ByTag]
  }

  /** `os.path.join(media_root, 'by-tag', tag)`. */
  function TagDir(root: Path, tag: Name): Path
  {
    Child(ByTagDir(root), tag)
  }

  /** `os.path.join(media_root, 'by-tag', tag, os.path.basename(filename))`. */
  function TagLinkPath(root: Path, tag: Name, filename: Path): Path
  {
    Child(TagDir(root, tag), BaseName(filename))
  }

  // ---------------------------------------------------------------- mkdir_p

  /** `mkdir_p(path)`: `os.makedirs`, where EEXIST on a directory is no failure. */
  function AfterMkdirP(fs: Fs, path: Path): Result<Fs>
  {
    match MakeDirs(fs, path)
    case Ok(fs1) => Ok(fs1)
    case Err(AlreadyExists) => if IsDir(fs, path) then Ok(fs) else Err(AlreadyExists)
    case Err(e) => Err(e)
  }

  /** `os.makedirs` adds `p` as a directory, and only directories on the way to it. */
  lemma {:induction false} MakeDirsGrows(fs: Fs, p: Path)
    requires MakeDirs(fs, p).Ok?
    ensures var fs' := MakeDirs(fs, p).value;
            && p !in fs && IsDir(fs', p)
            && (forall q :: q in fs ==> q in fs' && fs'[q] == fs[q])
            && (forall q :: q in fs' && q !in fs ==> q <= p && fs'[q] == Dir)
    decreases |p|
  {
    if Parent(p) != [] && !Exists(fs, Parent(p)) {
      match MakeDirs(fs, Parent(p))
      case Ok(fs1) =>
        MakeDirsGrows(fs, Parent(p));
        forall q | q in fs1 && q !in fs
          ensures q <= p
        {
          assert q <= Parent(p);
        }
      case Err(_) =>
    }
  }

  lemma MkdirPEffect(fs: Fs, path: Path)
    requires WellFormed(fs)
    ensures var r := AfterMkdirP(fs, path);
            && (path in fs ==> (r.Ok? <==> fs[path].Dir?) && (r.Ok? ==> r.value == fs))
            && (r.Ok? ==> && IsDir(r.value, path) && WellFormed(r.value)
                          && (forall q :: q in fs ==> q in r.value && r.value[q] == fs[q])
                          && (forall q :: q in r.value && q !in fs ==> q <= path && r.value[q] == Dir))
  {
    match MakeDirs(fs, path)
    case Ok(_) =>
      MakeDirsGrows(fs, path);
      MakeDirsPreservesWellFormed(fs, path);
    case Err(_) =>
  }

  method MkdirP(disk: Disk, path: Path) returns (ok: bool)
    requires disk.Valid()
    modifies disk
    ensures disk.Valid()
    ensures var r := AfterMkdirP(old(disk.nodes), path);
            ok == r.Ok? && disk.nodes == (if ok then r.value else old(disk.nodes))
  {
    MkdirPEffect(disk.nodes, path);
    var made := MakeDirs(disk.nodes, path);
    match made
    case Ok(fs1) =>
      disk.nodes := fs1;
      ok := true;
    case Err(e) =>
      // EEXIST on something that is already a directory is fine
      ok := e == AlreadyExists && IsDir(disk.nodes, path);
  }

  // -------------------------------------------------------- find_media_root

  /**
   * The first of `path` and its ancestors, nearest first, that holds a
   * `by-tag` directory; `/` itself is never tried.
   */
  function MediaRootOf(fs: Fs, path: Path): (r: Option<Path>)
    ensures r.Some? ==> r.value != [] && r.value <= path && IsDir(fs, r.value + [ByTag])
    ensures forall k :: (if r.Some? then |r.value| else 0) < k <= |path| ==> !IsDir(fs, path[..k] + [ByTag])
    decreases |path|
  {
    if path == [] then None
    else if IsDir(fs, path + [ByTag]) then Some(path)
    else
      var r := MediaRootOf(fs, Parent(path));
      assert forall k :: 0 <= k < |path| ==> path[..k] == Parent(path)[..k];
      assert path[..|path|] == path;
      r
  }

  /** `find_media_root(path)`; `None` is the ValueError it raises. */
  method FindMediaRoot(fs: Fs, start: Path) returns (root: Option<Path>)
    ensures root == MediaRootOf(fs, start)
  {
    var path := start;
    while path != []
      invariant MediaRootOf(fs, path) == MediaRootOf(fs, start)
      decreases |path|
    {
      if IsDir(fs, path + [ByTag]) {
        return Some(path);
      }
      path := Parent(path);
    }
    return None;
  }

  // ------------------------------------------------------------ index_files

  /** The index maps each base name to the set of files carrying it. */
  type Index = map<Name, set<Path>>

  /**
   * A regular file (not a link, not a directory) below the media root and
   * not below `<root>/by-tag`, which the walk never enters.
   */
  predicate Indexed(fs: Fs, root: Path, p: Path)
  {
    p in fs && fs[p].File? && root < p && !(ByTagDir(root) < p)
  }

  /**
   * `index` lists exactly the indexed files among `scanned`, each under its
   * base name, and has no empty entries.
   */
  ghost predicate Describes(index: Index, fs: Fs, root: Path, scanned: set<Path>)
  {
    && (forall b :: b in index ==> index[b] != {})
    && (forall b, p :: b in index && p in index[b] ==> p in scanned && Indexed(fs, root, p) && BaseName(p) == b)
    && (forall p :: p in scanned && Indexed(fs, root, p) ==> BaseName(p) in index && p in index[BaseName(p)])
  }

  /** The index built from the entries in `scanned`. */
  function IndexOver(fs: Fs, root: Path, scanned: set<Path>): (index: Index)
    ensures Describes(index, fs, root, scanned)
  {
    var files := set p | p in scanned && Indexed(fs, root, p);
    var names := set p | p in files :: BaseName(p);
    var index := map b | b in names :: (set p | p in files && BaseName(p) == b);
    forall b | b in index
      ensures index[b] != {}
    {
      var p :| p in files && BaseName(p) == b;
      assert p in index[b];
    }
    index
  }

  /** `index_files(media_root)`: every indexed file of the tree, by base name. */
  function ContentIndex(fs: Fs, root: Path): Index
  {
    IndexOver(fs, root, fs.Keys)
  }

  /** The description fixes the index: there is only one. */
  lemma DescribesUnique(i1: Index, i2: Index, fs: Fs, root: Path, scanned: set<Path>)
    requires Describes(i1, fs, root, scanned) && Describes(i2, fs, root, scanned)
    ensures i1 == i2
  {
    forall b | b in i1
      ensures b in i2 && i1[b] == i2[b]
    {
      var p :| p in i1[b];
      assert p in scanned && Indexed(fs, root, p) && BaseName(p) == b;
      forall q | q in i1[b]
        ensures q in i2[b]
      {
        assert q in scanned && Indexed(fs, root, q) && BaseName(q) == b;
      }
      forall q | q in i2[b]
        ensures q in i1[b]
      {
        assert q in scanned && Indexed(fs, root, q) && BaseName(q) == b;
      }
    }
    forall b | b in i2
      ensures b in i1
    {
      var p :| p in i2[b];
      assert p in scanned && Indexed(fs, root, p) && BaseName(p) == b;
    }
  }

  /** One more scanned entry, added under its base name when it is indexed. */
  lemma DescribesAdd(index: Index, fs: Fs, root: Path, scanned: set<Path>, p: Path)
    requires Describes(index, fs, root, scanned)
    ensures var b := BaseName(p);
            var index' := if Indexed(fs, root, p) then index[b := (if b in index then index[b] else {}) + {p}] else index;
            Describes(index', fs, root, scanned + {p})
  {
  }

  /** `index_files(media_root)`, visiting the entries of the tree in some order. */
  method IndexFiles(fs: Fs, root: Path) returns (index: Index)
    ensures index == ContentIndex(fs, root)
  {
    index := map[];
    var unvisited := fs.Keys;
    while unvisited != {}
      invariant unvisited <= fs.Keys
      invariant Describes(index, fs, root, fs.Keys - unvisited)
      decreases |unvisited|
    {
      var p :| p in unvisited;
      DescribesAdd(index, fs, root, fs.Keys - unvisited, p);
      assert (fs.Keys - unvisited) + {p} == fs.Keys - (unvisited - {p});
      unvisited := unvisited - {p};
      // the walk prunes `<root>/by-tag`; `files` holds non-directories, of which links are skipped
      if root < p && !(ByTagDir(root) < p) && fs[p].File? {
        var b := BaseName(p);
        index := index[b := (if b in index then index[b] else {}) + {p}];
      }
    }
    assert fs.Keys - unvisited == fs.Keys;
    DescribesUnique(index, ContentIndex(fs, root), fs, root, fs.Keys);
  }

  // -------------------------------------------------------- link predicates

  /** `is_broken_link(path)`. */
  function IsBrokenLink(fs: Fs, p: Path): (broken: bool)
    ensures broken <==> IsLink(fs, p) && Resolve(p, fs[p].target) !in fs
  {
    Lexists(fs, p) && !Exists(fs, p)
  }

  /** `is_absolute_link(path)`; reading a non-link fails. */
  function IsAbsoluteLink(fs: Fs, p: Path): (r: Result<bool>)
    ensures r.Err? <==> p in fs && !fs[p].Symlink?
    ensures r == Ok(true) <==> IsLink(fs, p) && fs[p].target.Absolute?
  {
    if !Lexists(fs, p) then Ok(false)
    else
      match Readlink(fs, p)
      case Ok(t) => Ok(t.Absolute?)
      case Err(e) => Err(e)
  }

  /** What `readlink_or_broken` reports: `*BROKEN*`, or the stored target. */
  datatype Shown = Broken | Points(target: Target)

  /** `readlink_or_broken(path)`; fails on anything but a link. */
  function ReadlinkOrBroken(fs: Fs, p: Path): (r: Result<Shown>)
    ensures r.Ok? <==> IsLink(fs, p)
    ensures r == Ok(Broken) <==> IsBrokenLink(fs, p)
    ensures IsLink(fs, p) && !IsBrokenLink(fs, p) ==> r == Ok(Points(fs[p].target))
  {
    if IsBrokenLink(fs, p) then Ok(Broken)
    else
      match Readlink(fs, p)
      case Ok(t) => Ok(Points(t))
      case Err(e) => Err(e)
  }

  // ------------------------------------------------------ relativize_target

  /** The number of leading components `a` and `b` share. */
  function CommonPrefixLength(a: Path, b: Path): (n: nat)
    ensures n <= |a| && n <= |b| && a[..n] == b[..n]
    ensures n < |a| && n < |b| ==> a[n] != b[n]
    ensures a <= b ==> n == |a|
  {
    if a == [] || b == [] || a[0] != b[0] then 0
    else
      var n := 1 + CommonPrefixLength(a[1..], b[1..]);
      assert a[..n] == [a[0]] + a[1..][..n - 1];
      assert b[..n] == [b[0]] + b[1..][..n - 1];
      n
  }

  /**
   * `relativize_target(media_root, path)`: `../..` (the link sits in
   * `by-tag/<tag>/`) followed by `os.path.relpath(path, media_root)`.
   */
  function RelativizeTarget(root: Path, path: Path): (t: Target)
    ensures t.Relative? && t.up >= 2
    ensures root <= path ==> t == Relative(2, path[|root|..])
  {
    var n := CommonPrefixLength(root, path);
    Relative(2 + (|root| - n), path[n..])
  }

  /** A link in `by-tag/<tag>/` with the relativized target leads back to `path`. */
  lemma RelativizeRoundTrip(root: Path, tag: Name, name: Name, path: Path)
    ensures Resolve(root + [ByTag, tag, name], RelativizeTarget(root, path)) == path
  {
    var link := root + [ByTag, tag, name];
    var n := CommonPrefixLength(root, path);
    var dir := Parent(link);
    assert dir == root + [ByTag, tag];
    assert dir[..n] == root[..n];
    assert path == path[..n] + path[n..];
  }

  // --------------------------------------------------------------- tag_file

  /** `tag_file(media_root, filename, tag)`. */
  function AfterTagFile(fs: Fs, root: Path, filename: Path, tag: Name): Result<Fs>
  {
    match AfterMkdirP(fs, TagDir(root, tag))
    case Err(e) => Err(e)
    case Ok(fs1) =>
      var linkname := TagLinkPath(root, tag, filename);
      if Lexists(fs1, linkname) then Ok(fs1)
      else MakeLink(fs1, RelativizeTarget(root, filename), linkname)
  }

  /**
   * Tagging fails only when the tag directory cannot be made; afterwards it
   * is a directory holding the link; an existing link leaves the tree as
   * it was, and otherwise exactly the new link is added.
   */
  lemma TagFileEffect(fs: Fs, root: Path, filename: Path, tag: Name)
    requires WellFormed(fs)
    ensures var r := AfterTagFile(fs, root, filename, tag);
            var tagdir := TagDir(root, tag);
            var link := TagLinkPath(root, tag, filename);
            && (r.Ok? <==> AfterMkdirP(fs, tagdir).Ok?)
            && (r.Ok? ==> WellFormed(r.value) && IsDir(r.value, tagdir) && link in r.value)
            && (r.Ok? && Lexists(fs, link) ==> r.value == fs)
            && (r.Ok? && !Lexists(fs, link) && BaseName(filename) != "" ==>
                  r.value == AfterMkdirP(fs, tagdir).value[link := Symlink(RelativizeTarget(root, filename))])
  {
    var tagdir := TagDir(root, tag);
    var link := TagLinkPath(root, tag, filename);
    MkdirPEffect(fs, tagdir);
    if BaseName(filename) != "" {
      assert link != [] && Parent(link) == tagdir;
      if link in fs {
        assert IsDir(fs, tagdir);
      }
    }
    match AfterMkdirP(fs, tagdir)
    case Ok(fs1) =>
      if !Lexists(fs1, link) {
        MakeLinkPreservesWellFormed(fs1, RelativizeTarget(root, filename), link);
      }
    case Err(_) =>
  }

  /** Tagging the same file with the same tag again changes nothing. */
  lemma TagFileIdempotent(fs: Fs, root: Path, filename: Path, tag: Name)
    requires WellFormed(fs) && AfterTagFile(fs, root, filename, tag).Ok?
    ensures var fs' := AfterTagFile(fs, root, filename, tag).value;
            AfterTagFile(fs', root, filename, tag) == Ok(fs')
  {
    TagFileEffect(fs, root, filename, tag);
    var fs' := AfterTagFile(fs, root, filename, tag).value;
    MkdirPEffect(fs', TagDir(root, tag));
  }

  /** A fresh tag link resolves to the tagged file. */
  lemma TagFileResolves(fs: Fs, root: Path, filename: Path, tag: Name)
    requires WellFormed(fs) && tag != "" && BaseName(filename) != ""
    requires !Lexists(fs, TagLinkPath(root, tag, filename))
    requires AfterTagFile(fs, root, filename, tag).Ok?
    ensures var fs' := AfterTagFile(fs, root, filename, tag).value;
            var link := root + [ByTag, tag, BaseName(filename)];
            && IsLink(fs', link)
            && fs'[link].target == RelativizeTarget(root, filename)
            && Resolve(link, fs'[link].target) == filename
  {
    TagFileEffect(fs, root, filename, tag);
    RelativizeRoundTrip(root, tag, BaseName(filename), filename);
    assert TagLinkPath(root, tag, filename) == root + [ByTag, tag, BaseName(filename)];
  }

  method TagFile(disk: Disk, root: Path, filename: Path, tag: Name) returns (ok: bool)
    requires disk.Valid()
    modifies disk
    ensures disk.Valid()
    ensures var r := AfterTagFile(old(disk.nodes), root, filename, tag);
            ok == r.Ok? && disk.nodes == (if ok then r.value else old(disk.nodes))
  {
    TagFileEffect(disk.nodes, root, filename, tag);
    ok := MkdirP(disk, TagDir(root, tag));
    if !ok {
      return;
    }
    var linkname := TagLinkPath(root, tag, filename);
    if !Lexists(disk.nodes, linkname) {
      var srcname := RelativizeTarget(root, filename);
      var linked := MakeLink(disk.nodes, srcname, linkname);
      disk.nodes := linked.value;
    }
  }
}
