/** The file synchronisation of the snapshot engine (checkpointing/git_ops.py):
    `_sync_files` copies a tree's visible, non-ignored files into another
    tree, `_full_restore_sync` first deletes the destination's visible files
    the snapshot lacks, and `_batch_sync_files` copies a listed set of files
    in batches. Directory iteration order is not fixed, so every loop over a
    set picks its next element freely; the contracts hold for any order. */
module Sync {
  import opened Wrappers
  import opened Text
  import opened FileTree

  // ----- which files take part -----

  /** A name the snapshot-side collectors skip: dot names other than `.gitignore`. */
  predicate SkippedName(name: string) {
    StartsWith(name, ".") && name != ".gitignore"
  }

  /** No segment of `p` is skipped by `collect_checkpoint_files` or `collect_files`. */
  predicate SnapshotVisible(p: Path) {
    forall i :: 0 <= i < |p| ==> !SkippedName(p[i])
  }

  /** No segment of `p` is skipped by `collect_project_files`, which skips every dot name. */
  predicate ProjectVisible(p: Path) {
    forall i :: 0 <= i < |p| ==> !StartsWith(p[i], ".")
  }

  /** `str(item.relative_to(base))` on a POSIX system. */
  function RelativeString(p: Path): string {
    if p == [] then "." else Join(p, '/')
  }

  /** `read_text().strip().split('\n')`. */
  function IgnoreLines(text: string): seq<string> {
    Split(Strip(text), '\n')
  }

  /** The guard `if pattern and not pattern.startswith('#')` as written. */
  predicate ActiveAsWritten(line: string) {
    line != [] && !StartsWith(line, "#")
  }

  /** The ignore test as written: some active line, stripped, occurs in the
      relative path string. */
  predicate IgnoredAsWritten(lines: seq<string>, p: Path) {
    exists i :: 0 <= i < |lines| && ActiveAsWritten(lines[i]) && Contains(RelativeString(p), Strip(lines[i]))
  }

  /** A non-empty line made only of whitespace passes the guard as written,
      strips to the empty string, and the empty string occurs in every path:
      one such line ignores every file. */
  lemma BlankLineIgnoresEverything(lines: seq<string>, i: nat, p: Path)
    requires i < |lines| && lines[i] != [] && AllSpace(lines[i])
    ensures IgnoredAsWritten(lines, p)
  {
    BlankStripsEmpty(lines[i]);
    EmptyOccurs(RelativeString(p));
    IgnoredAsWrittenAt(lines, i, p);
  }

  lemma BlankStripsEmpty(s: string)
    requires AllSpace(s)
    ensures Strip(s) == [] && !StartsWith(s, "#")
  {
    assert LStrip(s) == [];
  }

  lemma EmptyOccurs(s: string)
    ensures Contains(s, [])
  {
    assert StartsWith(s, []);
  }

  lemma IgnoredAsWrittenAt(lines: seq<string>, i: nat, p: Path)
    requires i < |lines| && ActiveAsWritten(lines[i]) && Contains(RelativeString(p), Strip(lines[i]))
    ensures IgnoredAsWritten(lines, p)
  {
  }

  /** The guard as intended: lines that are blank once stripped, and
      comments, are not patterns. */
  predicate Active(line: string) {
    Strip(line) != [] && !StartsWith(line, "#")
  }

  /** The ignore test with the intended guard; the rest of the model uses it. */
  predicate Ignored(lines: seq<string>, p: Path) {
    exists i :: 0 <= i < |lines| && Active(lines[i]) && Contains(RelativeString(p), Strip(lines[i]))
  }

  /** With the intended guard, blank lines ignore nothing, and the test agrees
      with the code as written whenever no such line is present. */
  lemma IgnoredIgnoresBlankLines(lines: seq<string>, p: Path)
    ensures (forall i :: 0 <= i < |lines| ==> AllSpace(lines[i])) ==> !Ignored(lines, p)
    ensures (forall i :: 0 <= i < |lines| ==> lines[i] == [] || Strip(lines[i]) != []) ==>
              (Ignored(lines, p) <==> IgnoredAsWritten(lines, p))
  {
    if forall i :: 0 <= i < |lines| ==> AllSpace(lines[i]) {
      forall i | 0 <= i < |lines|
        ensures !Active(lines[i])
      {
        assert LStrip(lines[i]) == [];
      }
    }
  }

  /** `Join` of a prefix of the segments is a prefix of the whole `Join`. */
  lemma {:induction false} JoinPrefix(p: Path, k: nat)
    requires 0 < k <= |p|
    ensures StartsWith(Join(p, '/'), Join(p[..k], '/'))
  {
    if k > 1 {
      JoinPrefix(p[1..], k - 1);
      assert p[..k][1..] == p[1..][..k - 1];
    }
  }

  /** What occurs in a prefix of `s` occurs in `s`. */
  lemma ContainsInPrefix(s: string, t: string, pat: string)
    requires StartsWith(s, t) && Contains(t, pat)
    ensures Contains(s, pat)
  {
    ContainsAt(t, pat);
    var j :| OccursAt(t, pat, j);
    assert s[j..j + |pat|] == t[j..j + |pat|];
    assert OccursAt(s, pat, j);
    ContainsAt(s, pat);
  }

  /** Ignoring a directory ignores everything below it, so checking each
      file's full relative path gives the files the recursive walk keeps. */
  lemma IgnoredBelow(lines: seq<string>, p: Path, k: nat)
    requires 0 < k <= |p| && Ignored(lines, p[..k])
    ensures Ignored(lines, p)
  {
    var i :| 0 <= i < |lines| && Active(lines[i]) && Contains(RelativeString(p[..k]), Strip(lines[i]));
    JoinPrefix(p, k);
    ContainsInPrefix(RelativeString(p), RelativeString(p[..k]), Strip(lines[i]));
  }

  /** `src / '.gitignore'`, read as text when it exists: the patterns, an
      error when it is a directory or does not decode, nothing when absent.
      Decoding (locale encoding, universal newlines) is the parameter. */
  function ReadIgnoreLines(files: map<Path, Bytes>, dirs: set<Path>, readText: Bytes -> Option<string>)
    : (r: Result<seq<string>>)
    ensures [".gitignore"] !in files && [".gitignore"] !in dirs ==> r == Ok([])
  {
    if [".gitignore"] in files then
      match readText(files[[".gitignore"]])
      case Some(text) => Ok(IgnoreLines(text))
      case None => Raised("UnicodeDecodeError")
    else if [".gitignore"] in dirs then Raised("IsADirectoryError")
    else Ok([])
  }

  /** The files `collect_files` lists. */
  function SyncSet(files: map<Path, Bytes>, lines: seq<string>): (s: set<Path>)
    ensures s <= files.Keys
  {
    set p | p in files && SnapshotVisible(p) && !Ignored(lines, p)
  }

  /** The files `collect_files` lists with the guard as written. */
  function SyncSetAsWritten(files: map<Path, Bytes>, lines: seq<string>): set<Path> {
    set p | p in files && SnapshotVisible(p) && !IgnoredAsWritten(lines, p)
  }

  /** The two guards list the same files unless a whitespace-only line is
      present; with one, the guard as written lists nothing. */
  lemma SyncSetsAgree(files: map<Path, Bytes>, lines: seq<string>)
    ensures (forall i :: 0 <= i < |lines| ==> lines[i] == [] || Strip(lines[i]) != []) ==>
              SyncSetAsWritten(files, lines) == SyncSet(files, lines)
    ensures (exists i :: 0 <= i < |lines| && lines[i] != [] && AllSpace(lines[i])) ==>
              SyncSetAsWritten(files, lines) == {}
  {
    forall p | p in files
      ensures (forall i :: 0 <= i < |lines| ==> lines[i] == [] || Strip(lines[i]) != []) ==>
                (IgnoredAsWritten(lines, p) <==> Ignored(lines, p))
    {
      IgnoredIgnoresBlankLines(lines, p);
    }
    if i :| 0 <= i < |lines| && lines[i] != [] && AllSpace(lines[i]) {
      forall p | p in files
        ensures IgnoredAsWritten(lines, p)
      {
        BlankLineIgnoresEverything(lines, i, p);
      }
    }
  }

  /** A .gitignore of the lines "build", two spaces and "dist": the blank
      line survives `strip().split('\n')`, so the guard as written ignores
      every file. */
  lemma InteriorBlankLine(files: map<Path, Bytes>)
    ensures IgnoreLines("build" + "\n" + "  " + "\n" + "dist") == ["build", "  ", "dist"]
    ensures SyncSetAsWritten(files, IgnoreLines("build" + "\n" + "  " + "\n" + "dist")) == {}
  {
    ExampleLines("build", "  ", "dist");
    var lines := ["build", "  ", "dist"];
    assert lines[1] == "  " && AllSpace(lines[1]);
    SyncSetsAgree(files, lines);
  }

  /** Three lines without newlines, the outer ones not padded, read back
      as themselves. */
  lemma ExampleLines(a: string, b: string, c: string)
    requires a != [] && !IsSpace(a[0]) && c != [] && !IsSpace(c[|c| - 1])
    requires '\n' !in a && '\n' !in b && '\n' !in c
    ensures IgnoreLines(a + "\n" + b + "\n" + c) == [a, b, c]
  {
    var text := a + "\n" + b + "\n" + c;
    assert text[0] == a[0] && text[|text| - 1] == c[|c| - 1];
    StripUnpadded(text);
    assert text == a + ['\n'] + (b + ['\n'] + c);
    SplitAtFirst(a, b + ['\n'] + c, '\n');
    SplitAtFirst(b, c, '\n');
    SplitNoSep(c, '\n');
  }

  /** The files `collect_checkpoint_files` lists. */
  function SnapshotFiles(files: map<Path, Bytes>): set<Path> {
    set p | p in files && SnapshotVisible(p)
  }

  /** The files `collect_project_files` lists. */
  function ProjectFiles(files: map<Path, Bytes>): set<Path> {
    set p | p in files && ProjectVisible(p)
  }

  // ----- copying -----

  /** Every non-root ancestor of some path of `m`. */
  function AncestorsOf(m: set<Path>): set<Path> {
    set p, k | p in m && 0 < k < |p| :: p[..k]
  }

  lemma AncestorsOfAdd(m: set<Path>, p: Path)
    ensures AncestorsOf(m + {p}) == AncestorsOf(m) + Ancestors(p)
  {
  }

  /** Copying `p` neither fails at `mkdir` nor at `copy2`. */
  predicate Unblocked(files: map<Path, Bytes>, dirs: set<Path>, p: Path) {
    !ParentBlocked(files, p) && !TargetBlocked(dirs, p)
  }

  /** The tree `files1`/`dirs1` is `files0`/`dirs0` after the parents of every
      path in `made` were created and every file in `copied` was copied from
      `src` to its target. Nothing else changed. */
  ghost predicate CopiedAll(files0: map<Path, Bytes>, dirs0: set<Path>, made: set<Path>, copied: set<Path>,
                            src: map<Path, Bytes>, files1: map<Path, Bytes>, dirs1: set<Path>)
  {
    && copied <= src.Keys
    && dirs1 == dirs0 + AncestorsOf(made)
    && (forall p :: p in copied ==> CopyTarget(dirs0, p) in files1 && files1[CopyTarget(dirs0, p)] == src[p])
    && (forall q :: q in files1 ==> q in files0 || exists p :: p in copied && q == CopyTarget(dirs0, p))
    && (forall q :: q in files0 && (forall p :: p in copied ==> q != CopyTarget(dirs0, p)) ==>
          q in files1 && files1[q] == files0[q])
  }

  /** Inside a well-formed source tree no entry lies below a file. */
  lemma NothingBelowFile(srcFiles: map<Path, Bytes>, srcDirs: set<Path>, f: Path, e: Path)
    requires WellFormed(srcFiles, srcDirs) && f in srcFiles && (e in srcFiles || e in srcDirs)
    ensures |f| < |e| ==> e[..|f|] != f
  {
    if |f| < |e| {
      assert e[..|f|] in srcDirs;
    }
  }

  lemma SliceOfSlice(p: Path, k: nat, n: nat)
    requires n <= k <= |p|
    ensures p[..k][..n] == p[..n]
  {
  }

  /** A file copied to `q` lands at `q` or directly inside it. */
  lemma TargetExtends(dirs: set<Path>, q: Path)
    ensures |q| <= |CopyTarget(dirs, q)| <= |q| + 1 && CopyTarget(dirs, q)[..|q|] == q
  {
    if q != [] && q in dirs {
      assert (q + [q[|q| - 1]])[..|q|] == q;
    }
  }

  /** What earlier copies from a well-formed source did can neither block nor
      redirect the copy of another of its entries: targets and blocking are
      decided by the tree as it was before the first copy. */
  lemma Independent(files0: map<Path, Bytes>, dirs0: set<Path>, made: set<Path>, copied: set<Path>,
                    srcFiles: map<Path, Bytes>, srcDirs: set<Path>,
                    files: map<Path, Bytes>, dirs: set<Path>, p: Path)
    requires WellFormed(srcFiles, srcDirs)
    requires made <= srcFiles.Keys + srcDirs && copied <= srcFiles.Keys
    requires CopiedAll(files0, dirs0, made, copied, srcFiles, files, dirs)
    requires p in srcFiles || p in srcDirs
    ensures ParentBlocked(files, p) <==> ParentBlocked(files0, p)
    ensures p in srcFiles ==> CopyTarget(dirs + Ancestors(p), p) == CopyTarget(dirs0, p)
    ensures p in srcFiles ==> (TargetBlocked(dirs + Ancestors(p), p) <==> TargetBlocked(dirs0, p))
  {
    forall k | 0 < k < |p| && p[..k] in files
      ensures p[..k] in files0
    {
      forall q | q in copied
        ensures CopyTarget(dirs0, q) != p[..k]
      {
        NothingBelowFile(srcFiles, srcDirs, q, p);
        TargetExtends(dirs0, q);
        if |q| <= k {
          SliceOfSlice(p, k, |q|);
        }
      }
    }
    forall k | 0 < k < |p| && p[..k] in files0
      ensures p[..k] in files
    {
    }
    if p in srcFiles {
      var inner := p + [p[|p| - 1]];
      assert inner[..|p|] == p;
      forall m, k | m in made && 0 < k < |m|
        ensures m[..k] != p && m[..k] != inner
      {
        NothingBelowFile(srcFiles, srcDirs, p, m);
        if |p| < k {
          SliceOfSlice(m, k, |p|);
        }
      }
      assert p !in Ancestors(p) && inner !in Ancestors(p);
    }
  }

  /** Creating the parents of one more path. */
  lemma MadeStep(files0: map<Path, Bytes>, dirs0: set<Path>, made: set<Path>, copied: set<Path>,
                 src: map<Path, Bytes>, files: map<Path, Bytes>, dirs: set<Path>, p: Path)
    requires CopiedAll(files0, dirs0, made, copied, src, files, dirs)
    ensures CopiedAll(files0, dirs0, made + {p}, copied, src, files, dirs + Ancestors(p))
  {
    AncestorsOfAdd(made, p);
  }

  /** Copying one more file of a well-formed source: distinct files have
      distinct targets, so the earlier copies are not overwritten. */
  lemma CopiedStep(files0: map<Path, Bytes>, dirs0: set<Path>, made: set<Path>, copied: set<Path>,
                   srcFiles: map<Path, Bytes>, srcDirs: set<Path>,
                   files: map<Path, Bytes>, dirs: set<Path>, p: Path)
    requires WellFormed(srcFiles, srcDirs) && p in srcFiles
    requires CopiedAll(files0, dirs0, made, copied, srcFiles, files, dirs)
    ensures CopiedAll(files0, dirs0, made, copied + {p}, srcFiles,
                      files[CopyTarget(dirs0, p) := srcFiles[p]], dirs)
  {
    var t := CopyTarget(dirs0, p);
    TargetExtends(dirs0, p);
    forall q | q in copied && q != p
      ensures CopyTarget(dirs0, q) != t
    {
      var u := CopyTarget(dirs0, q);
      TargetExtends(dirs0, q);
      NothingBelowFile(srcFiles, srcDirs, q, p);
      NothingBelowFile(srcFiles, srcDirs, p, q);
      if |q| < |p| {
        SliceOfSlice(t, |p|, |q|);
      } else if |p| < |q| {
        SliceOfSlice(u, |q|, |p|);
      }
    }
  }

  /** What `_sync_files(src, dst)` promises, given the destination as it was
      before: when `.gitignore` cannot be read nothing changes; otherwise the
      copy succeeds exactly when no listed file is blocked, and then every
      listed file has been copied and nothing else touched. A failed copy
      leaves the files copied before it in place. */
  ghost predicate SyncOutcome(srcFiles: map<Path, Bytes>, srcDirs: set<Path>, readText: Bytes -> Option<string>,
                              files0: map<Path, Bytes>, dirs0: set<Path>, r: Result<()>,
                              files1: map<Path, Bytes>, dirs1: set<Path>)
  {
    match ReadIgnoreLines(srcFiles, srcDirs, readText)
    case Raised(_) => r.Raised? && files1 == files0 && dirs1 == dirs0
    case Ok(lines) =>
      var s := SyncSet(srcFiles, lines);
      && (r.Ok? <==> forall p :: p in s ==> Unblocked(files0, dirs0, p))
      && (r.Ok? ==> CopiedAll(files0, dirs0, s, s, srcFiles, files1, dirs1))
      && (r.Raised? ==> exists done, p :: done <= s && p in s && p !in done &&
                          StoppedAt(files0, dirs0, done, p, srcFiles, files1, dirs1))
  }

  /** The copy loop stopped at `p`: the files of `done` were copied, none of
      them blocked; then the parents of `p` were created unless a file stands
      in their way, and `p` itself could not be copied. */
  ghost predicate StoppedAt(files0: map<Path, Bytes>, dirs0: set<Path>, done: set<Path>, p: Path,
                            src: map<Path, Bytes>, files1: map<Path, Bytes>, dirs1: set<Path>)
  {
    && !Unblocked(files0, dirs0, p)
    && (forall q :: q in done ==> Unblocked(files0, dirs0, q))
    && CopiedAll(files0, dirs0, done + (if ParentBlocked(files0, p) then {} else {p}), done, src, files1, dirs1)
  }

  /** `_sync_files(src, dst)`: collect the files, then copy them one by one;
      the first failing `mkdir` or `copy2` ends the sync with its exception. */
  method SyncFiles(src: Workspace, dst: Workspace, readText: Bytes -> Option<string>) returns (r: Result<()>)
    requires src.Valid() && dst.Valid() && src != dst
    modifies dst
    ensures dst.Valid()
    ensures SyncOutcome(src.files, src.dirs, readText, old(dst.files), old(dst.dirs), r, dst.files, dst.dirs)
  {
    var read := ReadIgnoreLines(src.files, src.dirs, readText);
    if read.Raised? {
      return Raised(read.reason);
    }
    r := CopyAll(SyncSet(src.files, read.value), src, dst);
  }

  /** The copy loop of `_sync_files` over the collected files, in any order. */
  method CopyAll(toSync: set<Path>, src: Workspace, dst: Workspace) returns (r: Result<()>)
    requires src.Valid() && dst.Valid() && src != dst && toSync <= src.files.Keys
    modifies dst
    ensures dst.Valid()
    ensures r.Ok? <==> forall p :: p in toSync ==> Unblocked(old(dst.files), old(dst.dirs), p)
    ensures r.Ok? ==> CopiedAll(old(dst.files), old(dst.dirs), toSync, toSync, src.files, dst.files, dst.dirs)
    ensures r.Raised? ==> exists done, p :: done <= toSync && p in toSync && p !in done &&
                            StoppedAt(old(dst.files), old(dst.dirs), done, p, src.files, dst.files, dst.dirs)
  {
    ghost var files0, dirs0 := dst.files, dst.dirs;
    var todo := toSync;
    while todo != {}
      invariant todo <= toSync
      invariant dst.Valid()
      invariant CopiedSoFar(files0, dirs0, toSync - todo, src.files, dst.files, dst.dirs)
      decreases todo
    {
      var p :| p in todo;
      ghost var done := toSync - todo;
      r := SyncOne(p, src, dst, files0, dirs0, done);
      if r.Raised? {
        assert StoppedAt(files0, dirs0, done, p, src.files, dst.files, dst.dirs);
        return;
      }
      assert toSync - (todo - {p}) == done + {p};
      todo := todo - {p};
    }
    r := Ok(());
  }

  /** The files of `done` were all copied, none of them blocked. */
  ghost predicate CopiedSoFar(files0: map<Path, Bytes>, dirs0: set<Path>, done: set<Path>,
                              src: map<Path, Bytes>, files1: map<Path, Bytes>, dirs1: set<Path>)
  {
    && CopiedAll(files0, dirs0, done, done, src, files1, dirs1)
    && (forall q :: q in done ==> Unblocked(files0, dirs0, q))
  }

  /** One iteration of the copy loop: `mkdir` of the parents, then
      `shutil.copy2`; either error propagates. */
  method SyncOne(p: Path, src: Workspace, dst: Workspace, ghost files0: map<Path, Bytes>, ghost dirs0: set<Path>,
                 ghost done: set<Path>)
    returns (r: Result<()>)
    requires src.Valid() && dst.Valid() && src != dst && p in src.files && done <= src.files.Keys
    requires CopiedAll(files0, dirs0, done, done, src.files, dst.files, dst.dirs)
    modifies dst
    ensures dst.Valid()
    ensures r.Raised? <==> !Unblocked(files0, dirs0, p)
    ensures r.Ok? ==> CopiedAll(files0, dirs0, done + {p}, done + {p}, src.files, dst.files, dst.dirs)
    ensures r.Raised? ==> CopiedAll(files0, dirs0, done + (if ParentBlocked(files0, p) then {} else {p}), done,
                                    src.files, dst.files, dst.dirs)
  {
    Independent(files0, dirs0, done, done, src.files, src.dirs, dst.files, dst.dirs, p);
    ghost var dirsBefore := dst.dirs;
    var made := dst.MakeParents(p);
    if made.Raised? {
      assert done + {} == done;
      return Raised(made.reason);
    }
    MadeStep(files0, dirs0, done, done, src.files, dst.files, dirsBefore, p);
    ghost var filesBefore := dst.files;
    var copied := dst.CopyInto(p, src.files[p]);
    if copied.Raised? {
      return Raised(copied.reason);
    }
    CopiedStep(files0, dirs0, done + {p}, done, src.files, src.dirs, filesBefore, dst.dirs, p);
    r := Ok(());
  }

  // ----- restoring -----

  /** The tree `files1`/`dirs1` is `files0`/`dirs0` after the files of `gone`
      were deleted, each followed by the walk up that removes emptied
      parents: only ancestors of deleted files were removed, and every
      remaining ancestor of a deleted file still has an entry. */
  ghost predicate Pruned(files0: map<Path, Bytes>, dirs0: set<Path>, gone: set<Path>,
                         files1: map<Path, Bytes>, dirs1: set<Path>)
  {
    && files1 == files0 - gone
    && dirs1 <= dirs0
    && (forall d :: d in dirs0 && d !in dirs1 ==> exists q :: q in gone && d in Ancestors(q))
    && (forall q, k :: q in gone && 0 < k < |q| && q[..k] in dirs1 ==> HasChild(files1, dirs1, q[..k]))
  }

  /** One more deletion, with what `RemoveFile` promises about its walk up. */
  lemma PrunedStep(files0: map<Path, Bytes>, dirs0: set<Path>, gone: set<Path>,
                   filesA: map<Path, Bytes>, dirsA: set<Path>, p: Path, top: nat,
                   filesB: map<Path, Bytes>, dirsB: set<Path>)
    requires WellFormed(filesB, dirsB)
    requires Pruned(files0, dirs0, gone, filesA, dirsA)
    requires filesB == filesA - {p}
    requires 1 <= top <= |p| && WalkedUp(p, top) <= dirsA && dirsB == dirsA - WalkedUp(p, top)
    requires top > 1 ==> p[..top - 1] in dirsB && HasChild(filesB, dirsB, p[..top - 1])
    ensures Pruned(files0, dirs0, gone + {p}, filesB, dirsB)
  {
    forall d | d in dirs0 && d !in dirsB
      ensures exists q :: q in gone + {p} && d in Ancestors(q)
    {
      if d in dirsA {
        var j :| top <= j < |p| && d == p[..j];
        assert d in Ancestors(p);
      }
    }
    forall q, k | q in gone + {p} && 0 < k < |q| && q[..k] in dirsB
      ensures HasChild(filesB, dirsB, q[..k])
    {
      if q == p {
        WalkedUpGone(p, top, dirsB);
        if k < top - 1 {
          SliceOfSlice(p, top - 1, k + 1);
          assert IsChild(p[..k], p[..k + 1]);
        }
      } else {
        ChildSurvives(filesA, dirsA, filesB, dirsB, p, top, q[..k]);
      }
    }
  }

  /** After the walk up, no prefix of `p` at or below where it stopped remains. */
  lemma WalkedUpGone(p: Path, top: nat, dirs: set<Path>)
    requires 1 <= top && dirs !! WalkedUp(p, top)
    ensures forall k :: top <= k < |p| ==> p[..k] !in dirs
  {
    forall k | top <= k < |p|
      ensures p[..k] !in dirs
    {
      assert p[..k] in WalkedUp(p, top);
    }
  }

  /** A directory that had an entry before a deletion and its walk up, and
      was not removed by them, still has one: the walk stopped at a
      directory with an entry. */
  lemma ChildSurvives(filesA: map<Path, Bytes>, dirsA: set<Path>, filesB: map<Path, Bytes>, dirsB: set<Path>,
                      p: Path, top: nat, d: Path)
    requires WellFormed(filesB, dirsB)
    requires filesB == filesA - {p}
    requires 1 <= top <= |p| && dirsB == dirsA - WalkedUp(p, top)
    requires top > 1 ==> p[..top - 1] in dirsB && HasChild(filesB, dirsB, p[..top - 1])
    requires d in dirsB && HasChild(filesA, dirsA, d)
    ensures HasChild(filesB, dirsB, d)
  {
    if !HasChild(filesB, dirsB, d) {
      var c :| (c in filesA || c in dirsA) && IsChild(d, c);
      assert c == p || c in WalkedUp(p, top);
      var j := |c|;
      assert c == p[..j];
      SliceOfSlice(p, j, |d|);
      WalkedUpGone(p, top, dirsB);
    }
  }

  /** The files `_full_restore_sync(src, dst)` deletes: the project's visible
      files that the snapshot does not have. */
  function Stale(srcFiles: map<Path, Bytes>, dstFiles: map<Path, Bytes>): (s: set<Path>)
    ensures s <= dstFiles.Keys
    ensures forall p :: p in s <==> p in dstFiles && ProjectVisible(p) && !(p in srcFiles && SnapshotVisible(p))
  {
    ProjectFiles(dstFiles) - SnapshotFiles(srcFiles)
  }

  /** `_full_restore_sync(src, dst)`: delete the stale files, each with the
      walk up that removes emptied parents, then `_sync_files(src, dst)`.
      The outcome is stated against the pruned tree the first phase left. */
  method FullRestoreSync(src: Workspace, dst: Workspace, readText: Bytes -> Option<string>) returns (r: Result<()>)
    requires src.Valid() && dst.Valid() && src != dst
    modifies dst
    ensures dst.Valid()
    ensures exists files1, dirs1 ::
              && WellFormed(files1, dirs1)
              && Pruned(old(dst.files), old(dst.dirs), Stale(src.files, old(dst.files)), files1, dirs1)
              && SyncOutcome(src.files, src.dirs, readText, files1, dirs1, r, dst.files, dst.dirs)
  {
    var gone := Stale(src.files, dst.files);
    PruneFiles(dst, gone);
    ghost var files1, dirs1 := dst.files, dst.dirs;
    r := SyncFiles(src, dst, readText);
    assert WellFormed(files1, dirs1);
  }

  /** The delete loop of `_full_restore_sync`: `unlink` each file of `gone`,
      each followed by the walk up. */
  method PruneFiles(dst: Workspace, gone: set<Path>)
    requires dst.Valid() && gone <= dst.files.Keys
    modifies dst
    ensures dst.Valid()
    ensures Pruned(old(dst.files), old(dst.dirs), gone, dst.files, dst.dirs)
  {
    ghost var files0, dirs0 := dst.files, dst.dirs;
    var todo := gone;
    while todo != {}
      invariant todo <= gone && todo <= dst.files.Keys
      invariant dst.Valid()
      invariant Pruned(files0, dirs0, gone - todo, dst.files, dst.dirs)
      decreases todo
    {
      // Every listed file still exists here: deletions and the walk up
      // remove nothing else.
      var p :| p in todo;
      ghost var filesA, dirsA := dst.files, dst.dirs;
      var top := dst.RemoveFile(p);
      PrunedStep(files0, dirs0, gone - todo, filesA, dirsA, p, top, dst.files, dst.dirs);
      assert gone - (todo - {p}) == (gone - todo) + {p};
      todo := todo - {p};
    }
  }

  /** What a successful restore achieves, given no directory of the project
      stood where the snapshot has a file to copy: every synced file has the
      snapshot's content, every visible file of the project is one the
      snapshot has, and hidden files the sync did not write keep their
      content. Without active ignore lines, the visible files of the project
      are exactly the snapshot's visible files, with its content. */
  lemma RestoreRoundTrip(files0: map<Path, Bytes>, dirs0: set<Path>, srcFiles: map<Path, Bytes>, lines: seq<string>,
                         files1: map<Path, Bytes>, dirs1: set<Path>, files2: map<Path, Bytes>, dirs2: set<Path>)
    requires Pruned(files0, dirs0, Stale(srcFiles, files0), files1, dirs1)
    requires CopiedAll(files1, dirs1, SyncSet(srcFiles, lines), SyncSet(srcFiles, lines), srcFiles, files2, dirs2)
    requires forall p :: p in SyncSet(srcFiles, lines) ==> p !in dirs0
    ensures forall p :: p in SyncSet(srcFiles, lines) ==> p in files2 && files2[p] == srcFiles[p]
    ensures forall q :: q in files2 && ProjectVisible(q) ==> q in srcFiles
    ensures forall q :: q in files0 && !ProjectVisible(q) && q !in SyncSet(srcFiles, lines) ==>
              q in files2 && files2[q] == files0[q]
    ensures (forall i :: 0 <= i < |lines| ==> !Active(lines[i])) ==>
              forall q :: ProjectVisible(q) ==>
                (q in files2 <==> q in srcFiles) && (q in files2 ==> files2[q] == srcFiles[q])
  {
    var s := SyncSet(srcFiles, lines);
    assert forall p :: p in s ==> CopyTarget(dirs1, p) == p;
    forall q | q in files0 && !ProjectVisible(q) && q !in s
      ensures q in files2 && files2[q] == files0[q]
    {
      assert q in files1;
    }
    if forall i :: 0 <= i < |lines| ==> !Active(lines[i]) {
      forall q | ProjectVisible(q) && q in srcFiles
        ensures q in s
      {
        assert SnapshotVisible(q);
      }
    }
  }

  // ----- batched copying -----

  function Min(a: int, b: int): int {
    if a <= b then a else b
  }

  /** `[xs[i:i + size] for i in range(start, len(xs), size)]`. */
  function Batches(xs: seq<Path>, size: nat, start: nat): seq<seq<Path>>
    requires size > 0
    decreases if start <= |xs| then |xs| - start else 0
  {
    if start >= |xs| then [] else [xs[start..Min(start + size, |xs|)]] + Batches(xs, size, start + size)
  }

  function Concat(bs: seq<seq<Path>>): seq<Path> {
    if bs == [] then [] else bs[0] + Concat(bs[1..])
  }

  lemma ConcatAppend(bs: seq<seq<Path>>, b: seq<Path>)
    ensures Concat(bs + [b]) == Concat(bs) + b
  {
    if bs != [] {
      assert (bs + [b])[1..] == bs[1..] + [b];
      ConcatAppend(bs[1..], b);
    }
  }

  /** The batches cover the list from `start` on, in order, each file once:
      every batch holds between one and `size` files, and all but the last
      hold exactly `size`. */
  lemma {:induction false} BatchesPartition(xs: seq<Path>, size: nat, start: nat)
    requires size > 0 && start <= |xs|
    decreases |xs| - start
    ensures Concat(Batches(xs, size, start)) == xs[start..]
    ensures forall i :: 0 <= i < |Batches(xs, size, start)| ==> 0 < |Batches(xs, size, start)[i]| <= size
    ensures forall i :: 0 <= i < |Batches(xs, size, start)| - 1 ==> |Batches(xs, size, start)[i]| == size
  {
    if start < |xs| {
      var next := Min(start + size, |xs|);
      BatchesPartition(xs, size, next);
      if next < |xs| {
        assert Batches(xs, size, start + size) == Batches(xs, size, next);
      } else {
        assert Batches(xs, size, start + size) == [];
      }
      assert xs[start..] == xs[start..next] + xs[next..];
    }
  }

  /** The progress report after the batch starting at `i`, if any: the
      percentage and the running count, logged when more than 100 files are
      synced and the count is a multiple of 500. */
  function ProgressAt(total: nat, size: nat, i: nat): seq<(nat, nat)> {
    if total > 100 && (i + size) % 500 == 0 then [(Min(100, (i + size) * 100 / total), i + size)] else []
  }

  /** The reports of all batches from `start` on. */
  function Progress(total: nat, size: nat, start: nat): seq<(nat, nat)>
    requires size > 0
    decreases if start <= total then total - start else 0
  {
    if start >= total then [] else ProgressAt(total, size, start) + Progress(total, size, start + size)
  }

  /** The integer percentage of `n` out of `total` is below 100 exactly
      when `n` is below `total`. */
  lemma PercentBelow(n: nat, total: nat)
    requires total > 0
    ensures n * 100 / total < 100 <==> n < total
  {
    var q, x := n * 100 / total, n * 100;
    assert q * total <= x < q * total + total;
    if q >= 100 {
      MulMonotone(100, q, total);
    } else {
      MulMonotone(q + 1, 100, total);
      assert (q + 1) * total == q * total + total;
    }
  }

  lemma MulMonotone(a: int, b: int, t: nat)
    requires a <= b
    ensures a * t <= b * t
  {
    assert b * t - a * t == (b - a) * t;
  }

  /** Reports appear only when more than 100 files are synced, at counts that
      are multiples of 500 reached by a batch that started before the end; the
      percentage never exceeds 100 and reaches it exactly when the count
      covers every file. */
  lemma {:induction false} ProgressBounded(total: nat, size: nat, start: nat)
    requires size > 0
    ensures forall r :: r in Progress(total, size, start) ==>
              && total > 100 && r.1 % 500 == 0 && start + size <= r.1 < total + size
              && r.0 <= 100 && (r.0 == 100 <==> r.1 >= total)
    decreases if start <= total then total - start else 0
  {
    if start < total {
      ProgressBounded(total, size, start + size);
      if total > 100 {
        PercentBelow(start + size, total);
      }
    }
  }

  /** The listed paths that exist in the source: `src.exists()`. */
  function Present(xs: seq<Path>, srcFiles: map<Path, Bytes>, srcDirs: set<Path>): set<Path> {
    set p | p in xs && (p in srcFiles || p in srcDirs)
  }

  /** The listed files whose `copy2` succeeds, judged on the destination as
      it was before the sync. */
  function Copyable(xs: seq<Path>, srcFiles: map<Path, Bytes>, dirs0: set<Path>): set<Path> {
    set p | p in xs && p in srcFiles && !TargetBlocked(dirs0, p)
  }

  /** One file of a batch: when it exists in the source, create its parents
      (an error there propagates), then copy it when it is a file; a failing
      copy is logged and skipped. */
  method SyncListed(p: Path, src: Workspace, dst: Workspace, ghost files0: map<Path, Bytes>, ghost dirs0: set<Path>,
                    ghost made: set<Path>, ghost copied: set<Path>)
    returns (r: Result<()>)
    requires src.Valid() && dst.Valid() && src != dst && p != []
    requires made <= src.files.Keys + src.dirs && copied <= src.files.Keys
    requires CopiedAll(files0, dirs0, made, copied, src.files, dst.files, dst.dirs)
    modifies dst
    ensures dst.Valid()
    ensures r.Raised? <==> (p in src.files || p in src.dirs) && ParentBlocked(files0, p)
    ensures r.Ok? ==> CopiedAll(files0, dirs0,
                                made + (if p in src.files || p in src.dirs then {p} else {}),
                                copied + (if p in src.files && !TargetBlocked(dirs0, p) then {p} else {}),
                                src.files, dst.files, dst.dirs)
    ensures r.Raised? ==> CopiedAll(files0, dirs0, made, copied, src.files, dst.files, dst.dirs)
  {
    if p !in src.files && p !in src.dirs {
      assert made + {} == made && copied + {} == copied;
      return Ok(());
    }
    r := SyncPresent(p, src, dst, files0, dirs0, made, copied);
  }

  /** A listed path that exists in the source: `mkdir` of its parents, then
      the copy when it is a file. */
  method SyncPresent(p: Path, src: Workspace, dst: Workspace, ghost files0: map<Path, Bytes>, ghost dirs0: set<Path>,
                     ghost made: set<Path>, ghost copied: set<Path>)
    returns (r: Result<()>)
    requires src.Valid() && dst.Valid() && src != dst && p != [] && (p in src.files || p in src.dirs)
    requires made <= src.files.Keys + src.dirs && copied <= src.files.Keys
    requires CopiedAll(files0, dirs0, made, copied, src.files, dst.files, dst.dirs)
    modifies dst
    ensures dst.Valid()
    ensures r.Raised? <==> ParentBlocked(files0, p)
    ensures r.Ok? ==> CopiedAll(files0, dirs0, made + {p},
                                copied + (if p in src.files && !TargetBlocked(dirs0, p) then {p} else {}),
                                src.files, dst.files, dst.dirs)
    ensures r.Raised? ==> CopiedAll(files0, dirs0, made, copied, src.files, dst.files, dst.dirs)
  {
    Independent(files0, dirs0, made, copied, src.files, src.dirs, dst.files, dst.dirs, p);
    ghost var dirsBefore := dst.dirs;
    var mk := dst.MakeParents(p);
    if mk.Raised? {
      return Raised(mk.reason);
    }
    MadeStep(files0, dirs0, made, copied, src.files, dst.files, dirsBefore, p);
    if p in src.files {
      CopyListed(p, src, dst, files0, dirs0, made + {p}, copied);
    }
    r := Ok(());
  }

  /** `shutil.copy2(src_file, dst_file)` once the parents exist; an error is
      logged and the file skipped. Copying cannot be redirected or blocked by
      the earlier copies, so the outcome is judged on the tree as it was. */
  method CopyListed(p: Path, src: Workspace, dst: Workspace, ghost files0: map<Path, Bytes>, ghost dirs0: set<Path>,
                    ghost made: set<Path>, ghost copied: set<Path>)
    requires src.Valid() && dst.Valid() && src != dst && p in src.files && p != []
    requires Ancestors(p) <= dst.dirs
    requires CopyTarget(dst.dirs, p) == CopyTarget(dirs0, p)
    requires TargetBlocked(dst.dirs, p) <==> TargetBlocked(dirs0, p)
    requires CopiedAll(files0, dirs0, made, copied, src.files, dst.files, dst.dirs)
    modifies dst
    ensures dst.Valid()
    ensures CopiedAll(files0, dirs0, made, copied + (if !TargetBlocked(dirs0, p) then {p} else {}),
                      src.files, dst.files, dst.dirs)
  {
    ghost var filesBefore := dst.files;
    var cp := dst.CopyInto(p, src.files[p]);
    if cp.Ok? {
      CopiedStep(files0, dirs0, made, copied, src.files, src.dirs, filesBefore, dst.dirs, p);
    } else {
      assert copied + {} == copied;
    }
  }

  /** `list(files)` for a set of relative paths: no path is empty and none
      occurs twice. */
  predicate FileList(xs: seq<Path>) {
    && (forall i :: 0 <= i < |xs| ==> xs[i] != [])
    && (forall i, j :: 0 <= i < j < |xs| ==> xs[i] != xs[j])
  }

  /** Some present file of `xs` cannot get its parents created. */
  predicate SomeBlocked(xs: seq<Path>, srcFiles: map<Path, Bytes>, srcDirs: set<Path>, files0: map<Path, Bytes>) {
    exists p :: p in Present(xs, srcFiles, srcDirs) && ParentBlocked(files0, p)
  }

  /** The state after the files `xs[..n]` were synced into the tree that was
      `files0`/`dirs0`, all of them without a `mkdir` error. */
  ghost predicate SyncedUpTo(xs: seq<Path>, n: nat, srcFiles: map<Path, Bytes>, srcDirs: set<Path>,
                             files0: map<Path, Bytes>, dirs0: set<Path>, files: map<Path, Bytes>, dirs: set<Path>)
    requires n <= |xs|
  {
    && (forall p :: p in Present(xs[..n], srcFiles, srcDirs) ==> !ParentBlocked(files0, p))
    && CopiedAll(files0, dirs0, Present(xs[..n], srcFiles, srcDirs), Copyable(xs[..n], srcFiles, dirs0),
                 srcFiles, files, dirs)
  }

  /** The sync of the list stopped at `xs[j]`: the files before it were
      synced, and `xs[j]` exists but its parents cannot be created. */
  ghost predicate StoppedInList(xs: seq<Path>, j: nat, srcFiles: map<Path, Bytes>, srcDirs: set<Path>,
                                files0: map<Path, Bytes>, dirs0: set<Path>, files: map<Path, Bytes>, dirs: set<Path>)
  {
    && j < |xs|
    && (xs[j] in srcFiles || xs[j] in srcDirs)
    && ParentBlocked(files0, xs[j])
    && SyncedUpTo(xs, j, srcFiles, srcDirs, files0, dirs0, files, dirs)
  }

  /** `for file in batch`: the files `xs[lo..hi]`, one by one. */
  method SyncBatch(xs: seq<Path>, lo: nat, hi: nat, src: Workspace, dst: Workspace,
                   ghost files0: map<Path, Bytes>, ghost dirs0: set<Path>)
    returns (r: Result<()>)
    requires lo <= hi <= |xs|
    requires FileList(xs)
    requires src.Valid() && dst.Valid() && src != dst
    requires SyncedUpTo(xs, lo, src.files, src.dirs, files0, dirs0, dst.files, dst.dirs)
    modifies dst
    ensures dst.Valid()
    ensures r.Raised? ==> SomeBlocked(xs, src.files, src.dirs, files0)
    ensures r.Raised? ==> exists j :: lo <= j < hi &&
                            StoppedInList(xs, j, src.files, src.dirs, files0, dirs0, dst.files, dst.dirs)
    ensures r.Ok? ==> SyncedUpTo(xs, hi, src.files, src.dirs, files0, dirs0, dst.files, dst.dirs)
  {
    var j := lo;
    while j < hi
      invariant lo <= j <= hi
      invariant dst.Valid()
      invariant SyncedUpTo(xs, j, src.files, src.dirs, files0, dirs0, dst.files, dst.dirs)
    {
      var p := xs[j];
      PresentStep(xs, src.files, src.dirs, dirs0, j);
      var one := SyncListed(p, src, dst, files0, dirs0, Present(xs[..j], src.files, src.dirs),
                            Copyable(xs[..j], src.files, dirs0));
      if one.Raised? {
        PresentIn(xs, j, src.files, src.dirs);
        assert StoppedInList(xs, j, src.files, src.dirs, files0, dirs0, dst.files, dst.dirs);
        return one;
      }
      j := j + 1;
    }
    r := Ok(());
  }

  /** A present file anywhere in the list is present in the list. */
  lemma PresentIn(xs: seq<Path>, j: nat, srcFiles: map<Path, Bytes>, srcDirs: set<Path>)
    requires j < |xs|
    ensures (xs[j] in srcFiles || xs[j] in srcDirs) ==> xs[j] in Present(xs, srcFiles, srcDirs)
  {
  }

  /** `_batch_sync_files(files, src, dst, batch_size)` over the list
      `list(files)`. A zero batch size makes `range` raise `ValueError`; a
      negative one gives no batches. With a positive size the batches are
      `Batches`, the reports are `Progress`, a failing `mkdir` ends the sync
      with its exception, and a successful sync has created the parents of
      every present file and copied every file whose copy can succeed. */
  method BatchSyncFiles(fileList: seq<Path>, src: Workspace, dst: Workspace, batchSize: int)
    returns (r: Result<()>, progress: seq<(nat, nat)>, ghost batches: seq<seq<Path>>)
    requires src.Valid() && dst.Valid() && src != dst
    requires FileList(fileList)
    modifies dst
    ensures dst.Valid()
    ensures batchSize <= 0 ==> dst.files == old(dst.files) && dst.dirs == old(dst.dirs) && progress == []
    ensures batchSize == 0 ==> r == Raised("ValueError")
    ensures batchSize < 0 ==> r == Ok(())
    ensures batchSize > 0 ==> (r.Ok? <==> !SomeBlocked(fileList, src.files, src.dirs, old(dst.files)))
    ensures batchSize > 0 && r.Ok? ==>
              && batches == Batches(fileList, batchSize, 0)
              && progress == Progress(|fileList|, batchSize, 0)
              && CopiedAll(old(dst.files), old(dst.dirs), Present(fileList, src.files, src.dirs),
                           Copyable(fileList, src.files, old(dst.dirs)), src.files, dst.files, dst.dirs)
    ensures batchSize > 0 && r.Raised? ==>
              BatchStopped(fileList, batchSize, batches, progress, src.files, src.dirs,
                           old(dst.files), old(dst.dirs), dst.files, dst.dirs)
  {
    progress, batches := [], [];
    if batchSize == 0 {
      return Raised("ValueError"), progress, batches;
    }
    if batchSize < 0 {
      return Ok(()), progress, batches;
    }
    r, progress, batches := SyncInBatches(fileList, src, dst, batchSize);
  }

  /** The batch loop of `_batch_sync_files` for a positive batch size. A
      failure in batch number `|batches|` stops the sync at one of its files,
      after the reports of the batches before it. */
  method SyncInBatches(fileList: seq<Path>, src: Workspace, dst: Workspace, batchSize: nat)
    returns (r: Result<()>, progress: seq<(nat, nat)>, ghost batches: seq<seq<Path>>)
    requires src.Valid() && dst.Valid() && src != dst && batchSize > 0
    requires FileList(fileList)
    modifies dst
    ensures dst.Valid()
    ensures r.Ok? <==> !SomeBlocked(fileList, src.files, src.dirs, old(dst.files))
    ensures r.Ok? ==>
              && batches == Batches(fileList, batchSize, 0)
              && progress == Progress(|fileList|, batchSize, 0)
              && CopiedAll(old(dst.files), old(dst.dirs), Present(fileList, src.files, src.dirs),
                           Copyable(fileList, src.files, old(dst.dirs)), src.files, dst.files, dst.dirs)
    ensures r.Raised? ==> BatchStopped(fileList, batchSize, batches, progress, src.files, src.dirs,
                                       old(dst.files), old(dst.dirs), dst.files, dst.dirs)
  {
    progress, batches := [], [];
    var total := |fileList|;
    ghost var files0, dirs0 := dst.files, dst.dirs;
    assert fileList[..0] == [];
    var i := 0;
    while i < total
      invariant dst.Valid()
      invariant LoopAt(fileList, batchSize, i, batches, progress, src.files, src.dirs, files0, dirs0, dst.files, dst.dirs)
      decreases total - i
    {
      ghost var batches0 := batches;
      var progress0 := progress;
      r, batches, progress := SyncNextBatch(fileList, src, dst, batchSize, i, files0, dirs0, batches, progress);
      if r.Raised? {
        Stopped(fileList, batchSize, i, batches0, progress0, src.files, src.dirs, files0, dirs0, dst.files, dst.dirs);
        return r, progress0, batches0;
      }
      i := i + batchSize;
    }
    r := Ok(());
    SyncedAll(fileList, Min(i, total), src.files, src.dirs, files0, dirs0, dst.files, dst.dirs);
  }

  /** The state of the batch loop before the batch starting at `i`. */
  ghost predicate LoopAt(xs: seq<Path>, size: nat, i: nat, batches: seq<seq<Path>>, progress: seq<(nat, nat)>,
                         srcFiles: map<Path, Bytes>, srcDirs: set<Path>,
                         files0: map<Path, Bytes>, dirs0: set<Path>, files: map<Path, Bytes>, dirs: set<Path>)
    requires size > 0
  {
    && BatchState(batches, progress, xs, size, i)
    && SyncedUpTo(xs, Min(i, |xs|), srcFiles, srcDirs, files0, dirs0, files, dirs)
  }

  /** The batched sync failed in batch number `|batches|`: `batches` and
      `progress` are the batches before it and their reports, and the sync
      stopped at a file of that batch. */
  ghost predicate BatchStopped(xs: seq<Path>, size: nat, batches: seq<seq<Path>>, progress: seq<(nat, nat)>,
                               srcFiles: map<Path, Bytes>, srcDirs: set<Path>,
                               files0: map<Path, Bytes>, dirs0: set<Path>, files: map<Path, Bytes>, dirs: set<Path>)
    requires size > 0
  {
    var start := |batches| * size;
    && Batched(batches, xs, size, start)
    && Reported(progress, |xs|, size, start)
    && exists j :: start <= j < start + size && StoppedInList(xs, j, srcFiles, srcDirs, files0, dirs0, files, dirs)
  }

  lemma Stopped(xs: seq<Path>, size: nat, i: nat, batches: seq<seq<Path>>, progress: seq<(nat, nat)>,
                srcFiles: map<Path, Bytes>, srcDirs: set<Path>,
                files0: map<Path, Bytes>, dirs0: set<Path>, files: map<Path, Bytes>, dirs: set<Path>)
    requires size > 0 && BatchState(batches, progress, xs, size, i)
    requires exists j :: i <= j < i + size && StoppedInList(xs, j, srcFiles, srcDirs, files0, dirs0, files, dirs)
    ensures BatchStopped(xs, size, batches, progress, srcFiles, srcDirs, files0, dirs0, files, dirs)
  {
  }

  /** One more batch of `size` files. */
  lemma BatchCountStep(n: nat, size: nat)
    ensures (n + 1) * size == n * size + size
  {
  }

  /** The loop has synced the whole list. */
  lemma SyncedAll(xs: seq<Path>, n: nat, srcFiles: map<Path, Bytes>, srcDirs: set<Path>,
                  files0: map<Path, Bytes>, dirs0: set<Path>, files: map<Path, Bytes>, dirs: set<Path>)
    requires n == |xs| && SyncedUpTo(xs, n, srcFiles, srcDirs, files0, dirs0, files, dirs)
    ensures !SomeBlocked(xs, srcFiles, srcDirs, files0)
    ensures CopiedAll(files0, dirs0, Present(xs, srcFiles, srcDirs), Copyable(xs, srcFiles, dirs0), srcFiles, files, dirs)
  {
    assert xs[..n] == xs;
  }

  /** One turn of the batch loop: copy `file_list[i:i + batch_size]`, then
      the progress report of that turn. */
  method SyncNextBatch(fileList: seq<Path>, src: Workspace, dst: Workspace, batchSize: nat, i: nat,
                       ghost files0: map<Path, Bytes>, ghost dirs0: set<Path>,
                       ghost batches: seq<seq<Path>>, progress: seq<(nat, nat)>)
    returns (r: Result<()>, ghost batches': seq<seq<Path>>, progress': seq<(nat, nat)>)
    requires src.Valid() && dst.Valid() && src != dst && batchSize > 0 && i < |fileList|
    requires FileList(fileList)
    requires LoopAt(fileList, batchSize, i, batches, progress, src.files, src.dirs, files0, dirs0, dst.files, dst.dirs)
    modifies dst
    ensures dst.Valid()
    ensures r.Raised? ==> SomeBlocked(fileList, src.files, src.dirs, files0)
    ensures r.Raised? ==> exists j :: i <= j < i + batchSize &&
                            StoppedInList(fileList, j, src.files, src.dirs, files0, dirs0, dst.files, dst.dirs)
    ensures r.Ok? ==> LoopAt(fileList, batchSize, i + batchSize, batches', progress', src.files, src.dirs,
                             files0, dirs0, dst.files, dst.dirs)
  {
    var end := Min(i + batchSize, |fileList|);
    var batch := fileList[i..end];
    r := SyncBatch(fileList, i, end, src, dst, files0, dirs0);
    BatchStep(batches, fileList, batchSize, i);
    ProgressStep(progress, |fileList|, batchSize, i);
    batches' := batches + [batch];
    progress' := progress + ProgressAt(|fileList|, batchSize, i);
    BatchCountStep(|batches|, batchSize);
  }

  /** `done` are the batches before `i`: with the ones from `i` on they make
      all of them. */
  predicate Batched(done: seq<seq<Path>>, xs: seq<Path>, size: nat, i: nat)
    requires size > 0
  {
    done + Batches(xs, size, i) == Batches(xs, size, 0)
  }

  /** The batch loop before the batch starting at `i`: `batches` are the
      batches before it and `progress` their reports. */
  predicate BatchState(batches: seq<seq<Path>>, progress: seq<(nat, nat)>, xs: seq<Path>, size: nat, i: nat)
    requires size > 0
  {
    i == |batches| * size && Batched(batches, xs, size, i) && Reported(progress, |xs|, size, i)
  }

  /** `done` are the reports of the batches before `i`. */
  predicate Reported(done: seq<(nat, nat)>, total: nat, size: nat, i: nat)
    requires size > 0
  {
    done + Progress(total, size, i) == Progress(total, size, 0)
  }

  /** One more batch taken off the front of the remaining ones. */
  lemma BatchStep(done: seq<seq<Path>>, xs: seq<Path>, size: nat, i: nat)
    requires size > 0 && i < |xs|
    ensures done + Batches(xs, size, i) == (done + [xs[i..Min(i + size, |xs|)]]) + Batches(xs, size, i + size)
  {
  }

  /** One more batch's report taken off the front of the remaining ones. */
  lemma ProgressStep(done: seq<(nat, nat)>, total: nat, size: nat, i: nat)
    requires size > 0 && i < total
    ensures done + Progress(total, size, i) == (done + ProgressAt(total, size, i)) + Progress(total, size, i + size)
  {
  }

  /** Extending the processed prefix of a duplicate-free list by one path. */
  lemma PresentStep(xs: seq<Path>, srcFiles: map<Path, Bytes>, srcDirs: set<Path>, dirs0: set<Path>, n: nat)
    requires n < |xs|
    requires forall i, j :: 0 <= i < j < |xs| ==> xs[i] != xs[j]
    ensures xs[n] !in Present(xs[..n], srcFiles, srcDirs)
    ensures Present(xs[..n + 1], srcFiles, srcDirs)
            == Present(xs[..n], srcFiles, srcDirs) + (if xs[n] in srcFiles || xs[n] in srcDirs then {xs[n]} else {})
    ensures Copyable(xs[..n + 1], srcFiles, dirs0)
            == Copyable(xs[..n], srcFiles, dirs0) + (if xs[n] in srcFiles && !TargetBlocked(dirs0, xs[n]) then {xs[n]} else {})
  {
    assert xs[..n + 1] == xs[..n] + [xs[n]];
  }
}
