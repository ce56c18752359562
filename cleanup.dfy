/** The cleanup command: dropping the metadata of checkpoints older than the
    retention period, for one project or for all of them, and removing
    checkpoint repositories no project refers to any more. The commits
    themselves are never rewritten; only metadata records and whole
    repository directories go. */
module Cleanup {
  import opened Wrappers
  import opened Config
  import opened Metadata

  const SecondsPerDay := 86400

  /** `datetime.now() - timedelta(days=retention_days)`, in seconds. */
  function Cutoff(now: int, retentionDays: int): int {
    now - retentionDays * SecondsPerDay
  }

  /** A record with a timestamp strictly before the cutoff; a record with an
      empty timestamp is skipped and never expires. */
  predicate Expired(r: Record, cutoff: int) {
    r.timestamp.At? && r.timestamp.secs < cutoff
  }

  /** The checkpoints of `t` that cleanup removes. */
  function ExpiredKeys(t: Table, cutoff: int): (ks: set<string>)
    ensures ks <= t.Keys
  {
    set k | k in t && Expired(t[k], cutoff)
  }

  /** `t` without its expired checkpoints: every remaining record is the one
      it was, and none of them is expired. */
  function Pruned(t: Table, cutoff: int): (r: Table)
    ensures r.Keys == t.Keys - ExpiredKeys(t, cutoff)
    ensures forall k :: k in r ==> r[k] == t[k] && !Expired(r[k], cutoff)
  {
    map k | k in t && !Expired(t[k], cutoff) :: t[k]
  }

  /** Pruning twice prunes nothing more. */
  lemma PrunedIdempotent(t: Table, cutoff: int)
    ensures Pruned(Pruned(t, cutoff), cutoff) == Pruned(t, cutoff)
  {
    var once := Pruned(t, cutoff);
    assert ExpiredKeys(once, cutoff) == {};
  }

  /** A table with nothing expired is left as it is. */
  lemma NothingExpiredKeepsTable(t: Table, cutoff: int)
    requires ExpiredKeys(t, cutoff) == {}
    ensures Pruned(t, cutoff) == t
  {
    assert Pruned(t, cutoff).Keys == t.Keys;
  }

  /** A later cutoff removes at least what an earlier one removes. */
  lemma LaterCutoffRemovesMore(t: Table, early: int, late: int)
    requires early <= late
    ensures ExpiredKeys(t, early) <= ExpiredKeys(t, late)
    ensures |ExpiredKeys(t, early)| <= |ExpiredKeys(t, late)|
  {
    SubsetCard(ExpiredKeys(t, early), ExpiredKeys(t, late));
  }

  // ----- one project -----

  /** The hashes of the expired entries, in their order. */
  function ExpiredHashes(es: seq<Entry>, cutoff: int): seq<string> {
    if es == [] then []
    else
      var last := es[|es| - 1];
      ExpiredHashes(es[..|es| - 1], cutoff) + (if Expired(last.record, cutoff) then [last.hash] else [])
  }

  lemma {:induction false} ExpiredHashesMembers(es: seq<Entry>, cutoff: int)
    ensures forall h :: h in ExpiredHashes(es, cutoff) <==>
              exists i :: 0 <= i < |es| && es[i].hash == h && Expired(es[i].record, cutoff)
  {
    if es != [] {
      var init := es[..|es| - 1];
      ExpiredHashesMembers(init, cutoff);
      forall h | h in ExpiredHashes(es, cutoff)
        ensures exists i :: 0 <= i < |es| && es[i].hash == h && Expired(es[i].record, cutoff)
      {
        if h in ExpiredHashes(init, cutoff) {
          var i :| 0 <= i < |init| && init[i].hash == h && Expired(init[i].record, cutoff);
          assert es[i] == init[i];
        }
      }
      forall h | exists i :: 0 <= i < |es| && es[i].hash == h && Expired(es[i].record, cutoff)
        ensures h in ExpiredHashes(es, cutoff)
      {
        var i :| 0 <= i < |es| && es[i].hash == h && Expired(es[i].record, cutoff);
        if i < |init| {
          assert init[i] == es[i];
        }
      }
    }
  }

  lemma {:induction false} ExpiredHashesDistinct(es: seq<Entry>, cutoff: int)
    requires DistinctHashes(es)
    ensures Distinct(ExpiredHashes(es, cutoff))
  {
    if es != [] {
      var init := es[..|es| - 1];
      var last := es[|es| - 1];
      ExpiredHashesDistinct(init, cutoff);
      ExpiredHashesMembers(init, cutoff);
      var f := ExpiredHashes(init, cutoff);
      forall a | 0 <= a < |f|
        ensures f[a] != last.hash
      {
        assert f[a] in f;
        var i :| 0 <= i < |init| && init[i].hash == f[a] && Expired(init[i].record, cutoff);
        assert es[i] == init[i];
      }
    }
  }

  /** The elements of a sequence of hashes. */
  function SetOf(xs: seq<string>): set<string> {
    set x | x in xs
  }

  lemma SetOfAppend(xs: seq<string>, x: string)
    ensures SetOf(xs + [x]) == SetOf(xs) + {x}
  {
  }

  lemma {:induction false} DistinctCard(xs: seq<string>)
    requires Distinct(xs)
    ensures |SetOf(xs)| == |xs|
  {
    if xs != [] {
      var init := xs[..|xs| - 1];
      var last := xs[|xs| - 1];
      assert Distinct(init);
      DistinctCard(init);
      assert xs == init + [last];
      SetOfAppend(init, last);
      assert last !in init;
    }
  }

  /** Collecting over any enumeration of a table finds exactly its expired
      checkpoints, each once. */
  lemma ExpiredOfEnumeration(t: Table, es: seq<Entry>, cutoff: int)
    requires Enumerates(t, es)
    ensures SetOf(ExpiredHashes(es, cutoff)) == ExpiredKeys(t, cutoff)
    ensures |ExpiredHashes(es, cutoff)| == |ExpiredKeys(t, cutoff)|
  {
    ExpiredHashesMembers(es, cutoff);
    ExpiredHashesDistinct(es, cutoff);
    DistinctCard(ExpiredHashes(es, cutoff));
    forall k | k in ExpiredKeys(t, cutoff)
      ensures k in ExpiredHashes(es, cutoff)
    {
      var i :| 0 <= i < |es| && es[i].hash == k;
    }
  }

  /** The counting loop: `removed_count` grows for every expired entry, and
      the hashes are collected only outside a dry run. */
  method CollectExpired(es: seq<Entry>, cutoff: int, dryRun: bool) returns (removed: nat, toRemove: seq<string>)
    ensures removed == |ExpiredHashes(es, cutoff)|
    ensures toRemove == if dryRun then [] else ExpiredHashes(es, cutoff)
  {
    removed, toRemove := 0, [];
    var i := 0;
    while i < |es|
      invariant 0 <= i <= |es|
      invariant removed == |ExpiredHashes(es[..i], cutoff)|
      invariant toRemove == if dryRun then [] else ExpiredHashes(es[..i], cutoff)
    {
      assert es[..i + 1][..i] == es[..i];
      if Expired(es[i].record, cutoff) {
        if !dryRun {
          toRemove := toRemove + [es[i].hash];
        }
        removed := removed + 1;
      }
      i := i + 1;
    }
    assert es[..|es|] == es;
  }

  /** The deletion loop: each collected hash still in the table is deleted. */
  method DeleteAll(t: Table, hs: seq<string>) returns (r: Table)
    ensures r == t - SetOf(hs)
  {
    r := t;
    var i := 0;
    while i < |hs|
      invariant 0 <= i <= |hs|
      invariant r == t - SetOf(hs[..i])
    {
      assert hs[..i + 1] == hs[..i] + [hs[i]];
      SetOfAppend(hs[..i], hs[i]);
      if hs[i] in r {
        r := r - {hs[i]};
      }
      i := i + 1;
    }
    assert hs[..|hs|] == hs;
  }

  lemma PrunedIsRemoval(t: Table, cutoff: int)
    ensures t - ExpiredKeys(t, cutoff) == Pruned(t, cutoff)
  {
  }

  /** The store after cleaning one project: its expired checkpoints are gone
      unless this is a dry run or there are none; nothing else changes. */
  ghost predicate ProjectOutcome(d0: map<string, Table>, d1: map<string, Table>, project: string,
                                 cutoff: int, dryRun: bool) {
    var t := TableIn(d0, project);
    if dryRun || ExpiredKeys(t, cutoff) == {} then d1 == d0
    else d1 == d0[project := Pruned(t, cutoff)]
  }

  /** `cleanup_project_checkpoints`: the count is the number of expired
      checkpoints of the project, in a dry run as well. */
  method CleanupProjectCheckpoints(store: CheckpointMetadata, project: string, retentionDays: int,
                                   dryRun: bool, now: int) returns (removed: nat)
    modifies store
    ensures removed == |ExpiredKeys(TableIn(old(store.data), project), Cutoff(now, retentionDays))|
    ensures ProjectOutcome(old(store.data), store.data, project, Cutoff(now, retentionDays), dryRun)
  {
    var t := store.ProjectTable(project);
    var entries := store.ListProjectCheckpoints(project);
    if entries == [] {
      EnumeratesNothing(t);
      return 0;
    }
    var cutoff := Cutoff(now, retentionDays);
    var toRemove;
    removed, toRemove := CollectExpired(entries, cutoff, dryRun);
    ExpiredOfEnumeration(t, entries, cutoff);
    if !dryRun && toRemove != [] {
      var metadata := store.data;
      if project in metadata {
        var table := DeleteAll(metadata[project], toRemove);
        PrunedIsRemoval(t, cutoff);
        metadata := metadata[project := table];
        store.data := metadata;
      }
    }
  }

  // ----- all projects -----

  /** `project_checkpoints.items()`: the table's entries in some order, which
      the model leaves open. */
  method Items(t: Table) returns (es: seq<Entry>)
    ensures Enumerates(t, es)
  {
    es := [];
    var rest := t.Keys;
    while rest != {}
      invariant rest <= t.Keys
      invariant HashesUpTo(es, |es|) == t.Keys - rest
      invariant forall i :: 0 <= i < |es| ==> es[i].hash in t && t[es[i].hash] == es[i].record
      invariant DistinctHashes(es)
      decreases rest
    {
      var k :| k in rest;
      var es' := es + [Entry(k, t[k])];
      HashesUpToStep(es', |es|);
      assert forall j :: 0 <= j < |es| ==> es'[j] == es[j];
      assert HashesUpTo(es', |es|) == HashesUpTo(es, |es|);
      es := es + [Entry(k, t[k])];
      rest := rest - {k};
    }
    forall k | k in t
      ensures exists i :: 0 <= i < |es| && es[i].hash == k
    {
      assert k in HashesUpTo(es, |es|);
    }
  }

  /** Every project of the store with its expired checkpoints removed. */
  function PrunedAll(d: map<string, Table>, cutoff: int): (r: map<string, Table>)
    ensures r.Keys == d.Keys
    ensures forall p :: p in r ==> r[p] == Pruned(d[p], cutoff)
  {
    map p | p in d :: Pruned(d[p], cutoff)
  }

  /** The expired checkpoints of the projects in `ps`, as (project, hash). */
  function ExpiredPairsIn(d: map<string, Table>, ps: set<string>, cutoff: int): set<(string, string)> {
    set p, k | p in ps && p in d && k in d[p] && Expired(d[p][k], cutoff) :: (p, k)
  }

  /** Every expired checkpoint of the store, under its project. */
  function ExpiredPairs(d: map<string, Table>, cutoff: int): set<(string, string)> {
    ExpiredPairsIn(d, d.Keys, cutoff)
  }

  function Tagged(p: string, ks: set<string>): set<(string, string)> {
    set k | k in ks :: (p, k)
  }

  lemma {:induction false} TaggedCard(p: string, ks: set<string>)
    ensures |Tagged(p, ks)| == |ks|
  {
    if k :| k in ks {
      TaggedCard(p, ks - {k});
      assert Tagged(p, ks) == Tagged(p, ks - {k}) + {(p, k)};
    }
  }

  lemma ExpiredPairsStep(d: map<string, Table>, ps: set<string>, p: string, cutoff: int)
    requires p in d && p !in ps
    ensures |ExpiredPairsIn(d, ps + {p}, cutoff)| == |ExpiredPairsIn(d, ps, cutoff)| + |ExpiredKeys(d[p], cutoff)|
  {
    var here := Tagged(p, ExpiredKeys(d[p], cutoff));
    assert ExpiredPairsIn(d, ps + {p}, cutoff) == ExpiredPairsIn(d, ps, cutoff) + here;
    assert ExpiredPairsIn(d, ps, cutoff) !! here;
    TaggedCard(p, ExpiredKeys(d[p], cutoff));
  }

  /** No expired checkpoint anywhere leaves every project as it is. */
  lemma NothingExpiredKeepsStore(d: map<string, Table>, cutoff: int)
    requires ExpiredPairs(d, cutoff) == {}
    ensures PrunedAll(d, cutoff) == d
  {
    forall p | p in d
      ensures Pruned(d[p], cutoff) == d[p]
    {
      forall k | k in d[p]
        ensures Expired(d[p][k], cutoff) ==> (p, k) in ExpiredPairs(d, cutoff)
      {
      }
      NothingExpiredKeepsTable(d[p], cutoff);
    }
  }

  /** One project of the all-projects pass, on the loaded copy. */
  method PruneProject(metadata: map<string, Table>, p: string, cutoff: int, dryRun: bool)
    returns (after: map<string, Table>, removed: nat)
    requires p in metadata
    ensures removed == |ExpiredKeys(metadata[p], cutoff)|
    ensures after == if dryRun then metadata else metadata[p := Pruned(metadata[p], cutoff)]
  {
    var t := metadata[p];
    var es := Items(t);
    var toRemove;
    removed, toRemove := CollectExpired(es, cutoff, dryRun);
    ExpiredOfEnumeration(t, es, cutoff);
    after := metadata;
    if !dryRun && toRemove != [] {
      var table := DeleteAll(t, toRemove);
      PrunedIsRemoval(t, cutoff);
      after := metadata[p := table];
    }
    if !dryRun && toRemove == [] {
      NothingExpiredKeepsTable(t, cutoff);
    }
  }

  /** The store after cleaning every project: saved with every expired
      checkpoint removed, unless this is a dry run or there are none. */
  ghost predicate AllOutcome(d0: map<string, Table>, d1: map<string, Table>, cutoff: int, dryRun: bool) {
    if dryRun || ExpiredPairs(d0, cutoff) == {} then d1 == d0 else d1 == PrunedAll(d0, cutoff)
  }

  /** The loop over the projects of the loaded copy. */
  method PruneAll(d0: map<string, Table>, cutoff: int, dryRun: bool)
    returns (metadata: map<string, Table>, total: nat)
    ensures total == |ExpiredPairs(d0, cutoff)|
    ensures metadata == if dryRun then d0 else PrunedAll(d0, cutoff)
  {
    metadata := d0;
    total := 0;
    var rest := metadata.Keys;
    while rest != {}
      invariant rest <= d0.Keys
      invariant metadata.Keys == d0.Keys
      invariant forall p :: p in d0 ==> metadata[p] == if p in rest || dryRun then d0[p] else Pruned(d0[p], cutoff)
      invariant total == |ExpiredPairsIn(d0, d0.Keys - rest, cutoff)|
      decreases rest
    {
      var p :| p in rest;
      var removed;
      metadata, removed := PruneProject(metadata, p, cutoff, dryRun);
      ExpiredPairsStep(d0, d0.Keys - rest, p, cutoff);
      assert d0.Keys - (rest - {p}) == (d0.Keys - rest) + {p};
      total := total + removed;
      rest := rest - {p};
    }
    assert d0.Keys - rest == d0.Keys;
  }

  /** `cleanup_all_projects`: the total is the number of expired checkpoints
      over all projects. */
  method CleanupAllProjects(store: CheckpointMetadata, retentionDays: int, dryRun: bool, now: int)
    returns (total: nat)
    modifies store
    ensures total == |ExpiredPairs(old(store.data), Cutoff(now, retentionDays))|
    ensures AllOutcome(old(store.data), store.data, Cutoff(now, retentionDays), dryRun)
  {
    var loaded := store.data;
    var cutoff := Cutoff(now, retentionDays);
    if loaded == map[] {
      assert ExpiredPairs(loaded, cutoff) == {};
      return 0;
    }
    var metadata;
    metadata, total := PruneAll(loaded, cutoff, dryRun);
    if !dryRun && total > 0 {
      store.data := metadata;
    }
    if total == 0 {
      NothingExpiredKeepsStore(loaded, cutoff);
    }
  }

  // ----- orphaned repositories -----

  /** The checkpoint repositories no project refers to: directories whose
      name is twelve characters long and is not a project key. */
  function Orphans(dirs: set<string>, known: set<string>): (o: set<string>)
    ensures o <= dirs
    ensures forall n :: n in o <==> n in dirs && |n| == 12 && n !in known
  {
    set n | n in dirs && |n| == 12 && n !in known
  }

  lemma OrphansStep(seen: set<string>, n: string, known: set<string>)
    requires n !in seen
    ensures |n| == 12 && n !in known ==>
              Orphans(seen + {n}, known) == Orphans(seen, known) + {n} &&
              |Orphans(seen + {n}, known)| == |Orphans(seen, known)| + 1
    ensures !(|n| == 12 && n !in known) ==> Orphans(seen + {n}, known) == Orphans(seen, known)
  {
  }

  /** `cleanup_orphaned_repos`. `base` holds the names of the directories
      under the checkpoints directory, or is `None` when that directory does
      not exist; the result is what remains of it and the count reported. */
  method CleanupOrphanedRepos(base: Option<set<string>>, store: CheckpointMetadata, dryRun: bool)
    returns (after: Option<set<string>>, orphaned: nat)
    ensures base.None? ==> after.None? && orphaned == 0
    ensures base.Some? ==> orphaned == |Orphans(base.value, store.data.Keys)|
    ensures base.Some? && dryRun ==> after == base
    ensures base.Some? && !dryRun ==> after == Some(base.value - Orphans(base.value, store.data.Keys))
  {
    if base.None? {
      return None, 0;
    }
    var known := store.data.Keys;
    var dirs := base.value;
    var remaining := dirs;
    orphaned := 0;
    var rest := dirs;
    while rest != {}
      invariant rest <= dirs
      invariant orphaned == |Orphans(dirs - rest, known)|
      invariant remaining == if dryRun then dirs else dirs - Orphans(dirs - rest, known)
      decreases rest
    {
      var n :| n in rest;
      OrphansStep(dirs - rest, n, known);
      assert dirs - (rest - {n}) == (dirs - rest) + {n};
      if |n| == 12 && n !in known {
        if !dryRun {
          remaining := remaining - {n};
        }
        orphaned := orphaned + 1;
      }
      rest := rest - {n};
    }
    assert dirs - rest == dirs;
    after := Some(remaining);
  }

  // ----- command line -----

  /** `args.retention_days or config.retention_days`: a missing or zero
      value on the command line falls back to the configuration. */
  function Retention(cli: Option<int>, cfg: Config): (days: int)
    ensures cli.Some? && cli.value != 0 ==> days == cli.value
    ensures cli.None? || cli.value == 0 ==> days == cfg.retentionDays
  {
    if cli.Some? && cli.value != 0 then cli.value else cfg.retentionDays
  }

  datatype Mode = Refused | OrphanedRepos | OneProject | AllProjects

  /** What `main` does: nothing when automatic cleanup is off and this is
      not a dry run; otherwise orphaned repositories before a named project
      before all projects. */
  function ModeOf(cfg: Config, dryRun: bool, orphaned: bool, project: bool): (m: Mode)
    ensures m == Refused <==> !cfg.autoCleanup && !dryRun
    ensures m == OrphanedRepos <==> (cfg.autoCleanup || dryRun) && orphaned
    ensures m == OneProject <==> (cfg.autoCleanup || dryRun) && !orphaned && project
  {
    if !cfg.autoCleanup && !dryRun then Refused
    else if orphaned then OrphanedRepos
    else if project then OneProject
    else AllProjects
  }

  /** `main` after the arguments are parsed. `project` is the hash of the
      project given with `--project`, `repoExists` whether that project has
      a checkpoint repository, and `base` the checkpoint directories. */
  method RunCleanup(store: CheckpointMetadata, cfg: Config, cliRetention: Option<int>, dryRun: bool,
                    orphaned: bool, project: Option<string>, repoExists: bool,
                    base: Option<set<string>>, now: int) returns (after: Option<set<string>>)
    modifies store
    ensures var m := ModeOf(cfg, dryRun, orphaned, project.Some?);
      m != OrphanedRepos || dryRun || base.None? ==> after == base
    ensures var m := ModeOf(cfg, dryRun, orphaned, project.Some?);
      m in {Refused, OrphanedRepos} || (m == OneProject && !repoExists) ==> store.data == old(store.data)
    ensures ModeOf(cfg, dryRun, orphaned, project.Some?) == OrphanedRepos && base.Some? && !dryRun ==>
              after == Some(base.value - Orphans(base.value, store.data.Keys))
    ensures ModeOf(cfg, dryRun, orphaned, project.Some?) == OneProject && repoExists ==>
              ProjectOutcome(old(store.data), store.data, project.value, Cutoff(now, Retention(cliRetention, cfg)), dryRun)
    ensures ModeOf(cfg, dryRun, orphaned, project.Some?) == AllProjects ==>
              AllOutcome(old(store.data), store.data, Cutoff(now, Retention(cliRetention, cfg)), dryRun)
  {
    var days := Retention(cliRetention, cfg);
    var mode := ModeOf(cfg, dryRun, orphaned, project.Some?);
    after := base;
    if mode == Refused {
      return;
    }
    if mode == OrphanedRepos {
      var count;
      after, count := CleanupOrphanedRepos(base, store, dryRun);
    } else if mode == OneProject {
      if !repoExists {
        return;
      }
      var removed := CleanupProjectCheckpoints(store, project.value, days, dryRun, now);
    } else {
      var total := CleanupAllProjects(store, days, dryRun, now);
    }
  }
}
