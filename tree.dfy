/** A directory tree on disk, as the snapshot engine sees it: files keyed by
    their path relative to the tree's root (a sequence of names) and the set
    of directories below the root. The root itself is implicit and always
    exists. */
module FileTree {
  import opened Wrappers

  newtype byte = x: int | 0 <= x < 256

  type Bytes = seq<byte>

  /** A relative path, one name per segment. */
  type Path = seq<string>

  /** The proper, non-root ancestors of `p`. */
  function Ancestors(p: Path): set<Path> {
    set k | 0 < k < |p| :: p[..k]
  }

  /** `q` is an entry directly inside directory `d`. */
  predicate IsChild(d: Path, q: Path) {
    |q| == |d| + 1 && q[..|d|] == d
  }

  /** `d` has an entry: `any(d.iterdir())`. */
  predicate HasChild(files: map<Path, Bytes>, dirs: set<Path>, d: Path) {
    (exists q :: q in files && IsChild(d, q)) || (exists q :: q in dirs && IsChild(d, q))
  }

  /** What a real file system guarantees: every ancestor of an entry is a
      directory, and no path is both a file and a directory. */
  ghost predicate WellFormed(files: map<Path, Bytes>, dirs: set<Path>) {
    && [] !in files && [] !in dirs
    && (forall p, k :: p in files && 0 < k < |p| ==> p[..k] in dirs)
    && (forall d, k :: d in dirs && 0 < k < |d| ==> d[..k] in dirs)
    && (forall p :: p in files ==> p !in dirs)
  }

  /** A set of file paths none of which lies inside another: the files of
      any well-formed tree. */
  ghost predicate IsTree(files: set<Path>) {
    && [] !in files
    && forall p, q :: p in files && q in files && |p| < |q| ==> q[..|p|] != p
  }

  lemma WellFormedIsTree(files: map<Path, Bytes>, dirs: set<Path>)
    requires WellFormed(files, dirs)
    ensures IsTree(files.Keys)
  {
    forall p, q | p in files && q in files && |p| < |q|
      ensures q[..|p|] != p
    {
      assert q[..|p|] in dirs;
    }
  }

  /** An entry below `d` implies an entry directly inside `d`. */
  lemma DescendantGivesChild(files: map<Path, Bytes>, dirs: set<Path>, d: Path, q: Path)
    requires WellFormed(files, dirs)
    requires q in files || q in dirs
    requires |q| > |d| && q[..|d|] == d
    ensures HasChild(files, dirs, d)
  {
    var c := q[..|d| + 1];
    assert IsChild(d, c);
    if |q| == |d| + 1 {
      assert c == q;
    } else {
      assert c in dirs;
    }
  }

  /** Removing an empty directory keeps the tree well formed. */
  lemma RemoveEmptyDir(files: map<Path, Bytes>, dirs: set<Path>, d: Path)
    requires WellFormed(files, dirs) && d in dirs && !HasChild(files, dirs, d)
    ensures WellFormed(files, dirs - {d})
  {
    forall p, k | p in files && 0 < k < |p|
      ensures p[..k] != d
    {
      if p[..k] == d {
        DescendantGivesChild(files, dirs, d, p);
      }
    }
    forall e, k | e in dirs && 0 < k < |e|
      ensures e[..k] != d
    {
      if e[..k] == d {
        DescendantGivesChild(files, dirs, d, e);
      }
    }
  }

  /** The paths `p[..j]` for `lo <= j < |p|`: the directories a walk up
      from `p`'s parent removes when it stops at `p[..lo - 1]`. */
  function WalkedUp(p: Path, lo: int): set<Path>
    requires 0 <= lo
  {
    set j | lo <= j < |p| :: p[..j]
  }

  /** Where `shutil.copy2` writes a file copied to `p`: into `p` itself, or
      under its own name inside `p` when `p` is a directory. */
  function CopyTarget(dirs: set<Path>, p: Path): Path {
    if p != [] && p in dirs then p + [p[|p| - 1]] else p
  }

  /** `dst.parent.mkdir(parents=True, exist_ok=True)` fails: a file stands
      where one of the parent directories has to be. */
  predicate ParentBlocked(files: map<Path, Bytes>, p: Path) {
    exists k :: 0 < k < |p| && p[..k] in files
  }

  /** `shutil.copy2` fails: the copy into directory `p` would overwrite a
      directory. */
  predicate TargetBlocked(dirs: set<Path>, p: Path) {
    p != [] && p in dirs && p + [p[|p| - 1]] in dirs
  }

  /** A mutable directory tree: the project directory or the checkpoint
      worktree. */
  class Workspace {
    var files: map<Path, Bytes>
    var dirs: set<Path>

    ghost predicate Valid()
      reads this
    {
      WellFormed(files, dirs)
    }

    constructor (files0: map<Path, Bytes>, dirs0: set<Path>)
      requires WellFormed(files0, dirs0)
      ensures Valid() && files == files0 && dirs == dirs0
    {
      files := files0;
      dirs := dirs0;
    }

    /** `path.parent.mkdir(parents=True, exist_ok=True)`: every missing
        ancestor of `p` is created, unless a file is in the way. */
    method MakeParents(p: Path) returns (r: Result<()>)
      requires Valid() && p != []
      modifies this
      ensures Valid() && files == old(files)
      ensures r.Raised? <==> ParentBlocked(old(files), p)
      ensures r.Raised? ==> dirs == old(dirs)
      ensures r.Ok? ==> dirs == old(dirs) + Ancestors(p)
    {
      if exists k :: 0 < k < |p| && p[..k] in files {
        return Raised("FileExistsError");
      }
      forall a, k | a in Ancestors(p) && 0 < k < |a|
        ensures a[..k] in Ancestors(p)
      {
        var j :| 0 < j < |p| && a == p[..j];
        assert a[..k] == p[..k];
      }
      dirs := dirs + Ancestors(p);
      r := Ok(());
    }

    /** `shutil.copy2(src, p)` once `p`'s parents exist. */
    method CopyInto(p: Path, content: Bytes) returns (r: Result<Path>)
      requires Valid() && p != [] && Ancestors(p) <= dirs
      modifies this
      ensures Valid() && dirs == old(dirs)
      ensures r.Raised? <==> TargetBlocked(old(dirs), p)
      ensures r.Raised? ==> files == old(files)
      ensures r.Ok? ==> r.value == CopyTarget(old(dirs), p) && files == old(files)[r.value := content]
    {
      if p in dirs {
        var inner := p + [p[|p| - 1]];
        if inner in dirs {
          return Raised("IsADirectoryError");
        }
        forall k | 0 < k < |inner|
          ensures inner[..k] in dirs
        {
          if k < |p| {
            assert inner[..k] == p[..k];
          } else {
            assert inner[..k] == p;
          }
        }
        files := files[inner := content];
        r := Ok(inner);
      } else {
        forall k | 0 < k < |p|
          ensures p[..k] in dirs
        {
          assert p[..k] in Ancestors(p);
        }
        files := files[p := content];
        r := Ok(p);
      }
    }

    /** `path.unlink()` followed by the walk up that removes the parents the
        deletion left empty; the walk never removes the root and stops at the
        first directory that still has an entry. The directories removed are
        `p[..j]` for `top <= j < |p|`. */
    method RemoveFile(p: Path) returns (top: nat)
      requires Valid() && p in files
      modifies this
      ensures Valid()
      ensures files == old(files) - {p}
      ensures 1 <= top <= |p|
      ensures WalkedUp(p, top) <= old(dirs)
      ensures dirs == old(dirs) - WalkedUp(p, top)
      ensures top > 1 ==> p[..top - 1] in dirs && HasChild(files, dirs, p[..top - 1])
    {
      files := files - {p};
      var j := |p| - 1;
      assert WalkedUp(p, j + 1) == {};
      while j > 0 && p[..j] in dirs && !HasChild(files, dirs, p[..j])
        invariant 0 <= j < |p|
        invariant files == old(files) - {p}
        invariant WellFormed(files, dirs)
        invariant WalkedUp(p, j + 1) <= old(dirs)
        invariant dirs == old(dirs) - WalkedUp(p, j + 1)
      {
        RemoveEmptyDir(files, dirs, p[..j]);
        assert WalkedUp(p, j) == WalkedUp(p, j + 1) + {p[..j]};
        dirs := dirs - {p[..j]};
        j := j - 1;
      }
      top := j + 1;
      if j > 0 {
        assert p[..j] in old(dirs);
        assert p[..j] !in WalkedUp(p, j + 1);
      }
    }
  }
}
