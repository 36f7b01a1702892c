/**
 * The POSIX filesystem as the tool sees it: a finite map from absolute,
 * normalised paths to the kind of entry found there, and the handful of
 * `os` / `os.path` primitives the tool calls (lexists, exists, isdir,
 * islink, readlink, listdir, remove, symlink, rename, makedirs), each with
 * the outcome POSIX gives on this abstraction.
 */
module FileSystem {

  /** One path component. */
  type Name = string

  /** An absolute, normalised path as its components; `[]` is `/`. */
  type Path = seq<Name>

  /** The text stored in a symbolic link, in its two shapes. */
  datatype Target =
    | Relative(up: nat, down: Path)   // `up` times `..`, then the names in `down`
    | Absolute(path: Path)            // a text that starts with `/`

  datatype Node = Dir | File | Symlink(target: Target)

  type Fs = map<Path, Node>

  /** The two errno values the tool tells apart: EEXIST and everything else. */
  datatype Errno = AlreadyExists | OtherError

  datatype Result<T> = Ok(value: T) | Err(errno: Errno)

  datatype Option<T> = None | Some(value: T)

  function Parent(p: Path): Path
    requires p != []
  {
    p[..|p| - 1]
  }

  /** `os.path.basename`: the last component, or "" for `/`. */
  function BaseName(p: Path): Name
  {
    if p == [] then "" else p[|p| - 1]
  }

  /** `os.path.join(dir, name)`; joining "" names `dir` itself. */
  function Child(dir: Path, name: Name): (r: Path)
    ensures name != "" ==> r == dir + [name] && BaseName(r) == name
  {
    if name == "" then dir else dir + [name]
  }

  /**
   * The path a link stored at `link` points at. `..` at `/` stays at `/`,
   * as in POSIX.
   */
  function Resolve(link: Path, t: Target): Path
  {
    match t
    case Absolute(p) => p
    case Relative(up, down) =>
      var dir := if link == [] then [] else Parent(link);
      (if up <= |dir| then dir[..|dir| - up] else []) + down
  }

  /** `os.path.lexists`: there is an entry, whatever it is. */
  predicate Lexists(fs: Fs, p: Path)
  {
    p in fs
  }

  /** `os.path.islink`. */
  predicate IsLink(fs: Fs, p: Path)
  {
    p in fs && fs[p].Symlink?
  }

  /** `os.path.isdir`. */
  predicate IsDir(fs: Fs, p: Path)
  {
    p in fs && fs[p].Dir?
  }

  /** `os.path.exists`: an entry, and for a link an entry at its target. */
  predicate Exists(fs: Fs, p: Path)
  {
    p in fs && (fs[p].Symlink? ==> Resolve(p, fs[p].target) in fs)
  }

  /** The names `os.listdir(d)` returns, in no particular order. */
  function Children(fs: Fs, d: Path): (names: set<Name>)
    ensures forall n :: n in names <==> d + [n] in fs
  {
    var names := set p | p in fs && |p| == |d| + 1 && d <= p :: p[|d|];
    assert forall n :: d + [n] in fs ==> (d + [n])[|d|] in names;
    forall n | n in names
      ensures d + [n] in fs
    {
      var p :| p in fs && |p| == |d| + 1 && d <= p && p[|d|] == n;
      assert p == d + [n];
    }
    names
  }

  /** `os.readlink`: the stored text of a link; fails on anything else. */
  function Readlink(fs: Fs, p: Path): (r: Result<Target>)
    ensures r.Ok? <==> IsLink(fs, p)
    ensures r.Ok? ==> r.value == fs[p].target
  {
    if IsLink(fs, p) then Ok(fs[p].target) else Err(OtherError)
  }

  /** `os.remove`: unlinks anything but a directory. */
  function Remove(fs: Fs, p: Path): (r: Result<Fs>)
    ensures r.Ok? <==> p in fs && !fs[p].Dir?
    ensures r.Ok? ==> r.value == fs - {p}
  {
    if p in fs && !fs[p].Dir? then Ok(fs - {p}) else Err(OtherError)
  }

  /** `os.symlink(target, p)`: needs a free name in an existing directory. */
  function MakeLink(fs: Fs, target: Target, p: Path): (r: Result<Fs>)
    ensures r.Ok? <==> p !in fs && p != [] && IsDir(fs, Parent(p))
    ensures r.Ok? ==> r.value == fs[p := Symlink(target)]
  {
    if p in fs then Err(AlreadyExists)
    else if p == [] || !IsDir(fs, Parent(p)) then Err(OtherError)
    else Ok(fs[p := Symlink(target)])
  }

  /** `os.mkdir(p)`. */
  function Mkdir(fs: Fs, p: Path): (r: Result<Fs>)
  {
    if p in fs || p == [] then Err(AlreadyExists)
    else if !IsDir(fs, Parent(p)) then Err(OtherError)
    else Ok(fs[p := Dir])
  }

  /**
   * `os.makedirs(p)`: creates a missing parent first (tolerating EEXIST
   * there), then `mkdir(p)`, which fails with EEXIST when `p` is present.
   */
  function MakeDirs(fs: Fs, p: Path): (r: Result<Fs>)
    decreases |p|
  {
    if p == [] then Err(AlreadyExists)
    else
      var prepared :=
        if Parent(p) != [] && !Exists(fs, Parent(p)) then
          match MakeDirs(fs, Parent(p))
          case Ok(fs1) => Ok(fs1)
          case Err(AlreadyExists) => Ok(fs)
          case Err(e) => Err(e)
        else Ok(fs);
      match prepared
      case Err(e) => Err(e)
      case Ok(fs1) => Mkdir(fs1, p)
  }

  /**
   * The tree after moving everything at or below `src` to the same place
   * below `dst`; whatever was at or below `dst` is replaced.
   */
  function MoveTree(fs: Fs, src: Path, dst: Path): Fs
  {
    var landing := set p | p in fs && src <= p :: dst + p[|src|..];
    (map p | p in fs && !(src <= p) && !(dst <= p) :: fs[p])
    + (map q | q in landing && dst <= q && src + q[|dst|..] in fs :: fs[src + q[|dst|..]])
  }

  /**
   * `os.rename(src, dst)`: moves an entry (with everything below it) to a
   * new name in an existing directory, replacing a non-directory there by a
   * non-directory.
   */
  function Rename(fs: Fs, src: Path, dst: Path): Result<Fs>
  {
    if src !in fs || src == [] then Err(OtherError)
    else if src == dst then Ok(fs)
    else if src <= dst then Err(OtherError)
    else if dst == [] || !IsDir(fs, Parent(dst)) then Err(OtherError)
    else if dst in fs && (fs[dst].Dir? || fs[src].Dir?) then Err(OtherError)
    else Ok(MoveTree(fs, src, dst))
  }

  /**
   * A real directory tree: `/` is a directory and every other entry sits
   * in a directory.
   */
  ghost predicate WellFormed(fs: Fs)
  {
    && IsDir(fs, [])
    && forall p :: p in fs && p != [] ==> IsDir(fs, Parent(p))
  }

  /** `fs` and `fs'` agree everywhere except strictly below `d`. */
  ghost predicate SameOutsideBelow(fs: Fs, fs': Fs, d: Path)
  {
    forall p :: !(d < p) ==> (p in fs <==> p in fs') && (p in fs ==> fs[p] == fs'[p])
  }

  lemma MoveTreeAt(fs: Fs, src: Path, dst: Path, q: Path)
    ensures var r := MoveTree(fs, src, dst);
            && (!(src <= q) && !(dst <= q) ==> (q in r <==> q in fs) && (q in fs ==> r[q] == fs[q]))
            && (dst <= q ==> (q in r <==> src + q[|dst|..] in fs)
                             && (q in r ==> r[q] == fs[src + q[|dst|..]]))
            && (src <= q && !(dst <= q) ==> q !in r)
  {
    if dst <= q {
      var p := src + q[|dst|..];
      assert p[|src|..] == q[|dst|..];
      assert dst + p[|src|..] == q;
    }
  }

  lemma RenameFrame(fs: Fs, src: Path, dst: Path)
    requires Rename(fs, src, dst).Ok?
    ensures var r := Rename(fs, src, dst).value;
            forall p :: !(src <= p) && !(dst <= p) ==> (p in fs <==> p in r) && (p in fs ==> fs[p] == r[p])
  {
    var r := Rename(fs, src, dst).value;
    forall p | !(src <= p) && !(dst <= p)
      ensures (p in fs <==> p in r) && (p in fs ==> fs[p] == r[p])
    {
      if src != dst {
        MoveTreeAt(fs, src, dst, p);
      }
    }
  }

  /** In a real tree a successful rename never moves an entry into or onto its own ancestor. */
  lemma RenameApart(fs: Fs, src: Path, dst: Path)
    requires WellFormed(fs) && Rename(fs, src, dst).Ok? && src != dst
    ensures !(src <= dst) && !(dst <= src)
  {
    if |dst| < |src| {
      AncestorsAreDirs(fs, src, |dst|);
      assert dst <= src <==> dst == src[..|dst|];
    }
  }

  lemma RenameMoves(fs: Fs, src: Path, dst: Path)
    requires WellFormed(fs) && Rename(fs, src, dst).Ok?
    ensures var r := Rename(fs, src, dst).value;
            && dst in r && r[dst] == fs[src]
            && (src != dst ==> src !in r)
  {
    if src != dst {
      RenameApart(fs, src, dst);
      MoveTreeAt(fs, src, dst, dst);
      assert dst[|dst|..] == [];
      assert src + dst[|dst|..] == src;
      MoveTreeAt(fs, src, dst, src);
    }
  }

  lemma {:induction false} RemovePreservesWellFormed(fs: Fs, p: Path)
    requires WellFormed(fs) && Remove(fs, p).Ok?
    ensures WellFormed(Remove(fs, p).value)
  {
  }

  lemma MakeLinkPreservesWellFormed(fs: Fs, target: Target, p: Path)
    requires WellFormed(fs) && MakeLink(fs, target, p).Ok?
    ensures WellFormed(MakeLink(fs, target, p).value)
  {
  }

  lemma {:induction false} RenamePreservesWellFormed(fs: Fs, src: Path, dst: Path)
    requires WellFormed(fs) && Rename(fs, src, dst).Ok?
    ensures WellFormed(Rename(fs, src, dst).value)
  {
    if src != dst {
      var r := Rename(fs, src, dst).value;
      assert r == MoveTree(fs, src, dst) && IsDir(fs, Parent(dst)) && dst != [];
      RenameApart(fs, src, dst);
      MoveTreeAt(fs, src, dst, []);
      forall q | q in r && q != []
        ensures IsDir(r, Parent(q))
      {
        MovedParentIsDir(fs, src, dst, q);
      }
    }
  }

  /** After a move that is not into or onto its own ancestor, every entry's parent is still a directory. */
  lemma MovedParentIsDir(fs: Fs, src: Path, dst: Path, q: Path)
    requires WellFormed(fs) && dst != [] && IsDir(fs, Parent(dst))
    requires !(src <= dst) && !(dst <= src)
    requires q in MoveTree(fs, src, dst) && q != []
    ensures IsDir(MoveTree(fs, src, dst), Parent(q))
  {
    MoveTreeAt(fs, src, dst, q);
    MoveTreeAt(fs, src, dst, Parent(q));
    if q == dst {
      assert Parent(dst) <= dst;
      assert !(dst <= Parent(dst));
    } else if dst <= q {
      MovedInsideParentIsDir(fs, src, dst, q);
    } else {
      assert !(src <= q);
      assert Parent(q) <= q;
    }
  }

  /** An entry moved to strictly below `dst` has as parent the moved copy of its old parent. */
  lemma MovedInsideParentIsDir(fs: Fs, src: Path, dst: Path, q: Path)
    requires WellFormed(fs) && dst < q && src + q[|dst|..] in fs
    ensures dst <= Parent(q) && src + Parent(q)[|dst|..] in fs && fs[src + Parent(q)[|dst|..]].Dir?
  {
    var s := q[|dst|..];
    var p := src + s;
    assert p != [];
    assert Parent(p) == src + Parent(q)[|dst|..];
  }

  /** Every ancestor of an entry of a real tree is a directory. */
  lemma {:induction false} AncestorsAreDirs(fs: Fs, p: Path, k: nat)
    requires WellFormed(fs) && p in fs && k <= |p|
    ensures IsDir(fs, p[..k]) || k == |p|
    decreases |p| - k
  {
    if k < |p| {
      if k == |p| - 1 {
        assert p[..k] == Parent(p);
      } else {
        AncestorsAreDirs(fs, p, k + 1);
        assert p[..k] == Parent(p[..k + 1]);
      }
    }
  }

  lemma {:induction false} MakeDirsPreservesWellFormed(fs: Fs, p: Path)
    requires WellFormed(fs) && MakeDirs(fs, p).Ok?
    ensures WellFormed(MakeDirs(fs, p).value)
    decreases |p|
  {
    if Parent(p) != [] && !Exists(fs, Parent(p)) {
      match MakeDirs(fs, Parent(p))
      case Ok(fs1) => MakeDirsPreservesWellFormed(fs, Parent(p));
      case Err(_) =>
    }
  }

  /**
   * The machine's filesystem, which the tool's operations change in place.
   * `Valid` is what every real directory tree satisfies.
   */
  class Disk {
    var nodes: Fs

    ghost predicate Valid()
      reads this
    {
      WellFormed(nodes)
    }

    constructor (initial: Fs)
      requires WellFormed(initial)
      ensures Valid() && nodes == initial
    {
      nodes := initial;
    }
  }
}
