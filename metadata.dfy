/** The checkpoint metadata store (checkpointing/metadata.py): a map from
    project hash to checkpoint hash to record, read and written as one unit.
    The lock file, the JSON file and its atomic replacement are abstracted
    away: each mutating method is one atomic step on `data`. */
module Metadata {
  import opened Wrappers
  import opened Json

  /** A record's `timestamp`. Records the hooks write always carry an instant;
      a hand-edited file may hold the empty string, which Python's string
      order puts before every ISO timestamp. Instants are integer seconds. */
  datatype Stamp = Empty | At(secs: int)

  /** The order `sort(key=timestamp)` uses. */
  predicate StampLe(a: Stamp, b: Stamp) {
    a.Empty? || (b.At? && a.secs <= b.secs)
  }

  const Pending := "pending"
  const Success := "success"
  const Failed := "failed"

  /** One entry of a MultiEdit `edits` list: only its `file_path` matters here. */
  datatype Edit = Edit(filePath: Option<string>)

  /** The keys of a hook's `tool_input` that the program reads; a missing
      `edits` list behaves as an empty one everywhere it is read. */
  datatype ToolInput = ToolInput(filePath: Option<string>, edits: seq<Edit>, message: Option<string>)

  /** A `tool_response` object. */
  type Response = map<string, Json>

  datatype Record = Record(
    timestamp: Stamp,
    toolName: string,
    toolInput: ToolInput,
    sessionId: string,
    status: string,
    statusUpdated: Option<int>,
    toolResponse: Option<Response>,
    filesAffected: seq<string>)

  /** One element of `list_project_checkpoints`: the record with `'hash'` added. */
  datatype Entry = Entry(hash: string, record: Record)

  /** The checkpoints of one project. */
  type Table = map<string, Record>

  /** A project's checkpoints; a project the store does not know has none. */
  function TableIn(d: map<string, Table>, project: string): Table {
    if project in d then d[project] else map[]
  }

  predicate IsFileTool(name: string) {
    name == "Write" || name == "Edit" || name == "MultiEdit"
  }

  /** The `file_path`s of the edits that carry one, in order. */
  function EditPaths(edits: seq<Edit>): seq<string> {
    if edits == [] then []
    else
      var last := edits[|edits| - 1];
      EditPaths(edits[..|edits| - 1]) + (if last.filePath.Some? then [last.filePath.value] else [])
  }

  /** What `_extract_files(tool_name, tool_input)` returns. */
  function AffectedFiles(toolName: string, input: ToolInput): seq<string> {
    if !IsFileTool(toolName) then []
    else if input.filePath.Some? then [input.filePath.value]
    else EditPaths(input.edits)
  }

  /** `EditPaths` keeps exactly the paths the edits carry, in their order. */
  lemma EditPathsSpec(edits: seq<Edit>)
    ensures |EditPaths(edits)| <= |edits|
    ensures forall x :: x in EditPaths(edits) <==> exists i :: 0 <= i < |edits| && edits[i].filePath == Some(x)
    ensures (forall i :: 0 <= i < |edits| ==> edits[i].filePath.Some?) ==>
              |EditPaths(edits)| == |edits| && forall i :: 0 <= i < |edits| ==> EditPaths(edits)[i] == edits[i].filePath.value
    ensures (forall i :: 0 <= i < |edits| ==> edits[i].filePath.None?) ==> EditPaths(edits) == []
  {
    EditPathsMembers(edits);
    if forall i :: 0 <= i < |edits| ==> edits[i].filePath.Some? {
      EditPathsAllCarry(edits);
    }
    if forall i :: 0 <= i < |edits| ==> edits[i].filePath.None? {
      EditPathsNoneCarry(edits);
    }
  }

  lemma {:induction false} EditPathsMembers(edits: seq<Edit>)
    ensures |EditPaths(edits)| <= |edits|
    ensures forall x :: x in EditPaths(edits) <==> exists i :: 0 <= i < |edits| && edits[i].filePath == Some(x)
  {
    if edits != [] {
      var init := edits[..|edits| - 1];
      EditPathsMembers(init);
      assert forall i :: 0 <= i < |init| ==> init[i] == edits[i];
      forall x | x in EditPaths(edits)
        ensures exists i :: 0 <= i < |edits| && edits[i].filePath == Some(x)
      {
        if x !in EditPaths(init) {
          assert edits[|edits| - 1].filePath == Some(x);
        }
      }
    }
  }

  lemma {:induction false} EditPathsAllCarry(edits: seq<Edit>)
    requires forall i :: 0 <= i < |edits| ==> edits[i].filePath.Some?
    ensures |EditPaths(edits)| == |edits| && forall i :: 0 <= i < |edits| ==> EditPaths(edits)[i] == edits[i].filePath.value
  {
    if edits != [] {
      var init := edits[..|edits| - 1];
      EditPathsAllCarry(init);
      assert forall i :: 0 <= i < |init| ==> init[i] == edits[i];
    }
  }

  lemma {:induction false} EditPathsNoneCarry(edits: seq<Edit>)
    requires forall i :: 0 <= i < |edits| ==> edits[i].filePath.None?
    ensures EditPaths(edits) == []
  {
    if edits != [] {
      var init := edits[..|edits| - 1];
      EditPathsNoneCarry(init);
      assert forall i :: 0 <= i < |init| ==> init[i] == edits[i];
    }
  }

  /** `_extract_files`: the append loop over `edits`. */
  method ExtractFiles(toolName: string, input: ToolInput) returns (files: seq<string>)
    ensures files == AffectedFiles(toolName, input)
  {
    files := [];
    if IsFileTool(toolName) {
      if input.filePath.Some? {
        files := files + [input.filePath.value];
      } else {
        var i := 0;
        while i < |input.edits|
          invariant 0 <= i <= |input.edits|
          invariant files == EditPaths(input.edits[..i])
        {
          assert input.edits[..i + 1][..i] == input.edits[..i];
          if input.edits[i].filePath.Some? {
            files := files + [input.edits[i].filePath.value];
          }
          i := i + 1;
        }
        assert input.edits[..i] == input.edits;
      }
    }
  }

  /** The record `update_checkpoint_status` leaves: new status and update time,
      and the response only when it is truthy (present and non-empty). */
  function WithStatus(r: Record, status: string, response: Option<Response>, now: int): Record {
    r.(status := status,
       statusUpdated := Some(now),
       toolResponse := if response.Some? && response.value != map[] then response else r.toolResponse)
  }

  /** A status update changes only the status, its time and possibly the
      stored response; an empty response leaves the stored one in place. */
  lemma WithStatusKeeps(r: Record, status: string, response: Option<Response>, now: int)
    ensures var u := WithStatus(r, status, response, now);
      u.timestamp == r.timestamp && u.toolName == r.toolName && u.toolInput == r.toolInput
      && u.sessionId == r.sessionId && u.filesAffected == r.filesAffected
      && u.status == status && u.statusUpdated == Some(now)
      && (response == None || response == Some(map[]) ==> u.toolResponse == r.toolResponse)
  {
  }

  // ----- listings -----

  /** Newest first: timestamps never increase along the sequence. */
  predicate NewestFirst(es: seq<Entry>) {
    forall i, j :: 0 <= i < j < |es| ==> StampLe(es[j].record.timestamp, es[i].record.timestamp)
  }

  predicate Distinct(xs: seq<string>) {
    forall a, b :: 0 <= a < b < |xs| ==> xs[a] != xs[b]
  }

  /** No hash repeats. Stated on the entries themselves rather than through
      `Distinct` of their hashes, so that its quantifier triggers on `es[i]`
      as the other listing predicates do. */
  predicate DistinctHashes(es: seq<Entry>) {
    forall i, j :: 0 <= i < j < |es| ==> es[i].hash != es[j].hash
  }

  /** `es` holds each record of `t` exactly once, under its own key. */
  predicate Enumerates(t: Table, es: seq<Entry>) {
    && (forall i :: 0 <= i < |es| ==> es[i].hash in t && t[es[i].hash] == es[i].record)
    && (forall k :: k in t ==> exists i :: 0 <= i < |es| && es[i].hash == k)
    && DistinctHashes(es)
  }

  /** What `list_project_checkpoints` promises about its result. */
  predicate IsListing(t: Table, es: seq<Entry>) {
    Enumerates(t, es) && NewestFirst(es)
  }

  function HashesUpTo(es: seq<Entry>, m: int): set<string>
    requires 0 <= m <= |es|
  {
    set j | 0 <= j < m :: es[j].hash
  }

  lemma HashesUpToStep(es: seq<Entry>, m: int)
    requires 0 <= m < |es|
    ensures HashesUpTo(es, m + 1) == HashesUpTo(es, m) + {es[m].hash}
  {
  }

  lemma {:induction false} HashesUpToCard(es: seq<Entry>, m: int)
    requires 0 <= m <= |es| && DistinctHashes(es)
    ensures |HashesUpTo(es, m)| == m
  {
    if m > 0 {
      HashesUpToCard(es, m - 1);
      HashesUpToStep(es, m - 1);
    }
  }

  /** A listing has exactly as many entries as the table has records. */
  lemma ListingSize(t: Table, es: seq<Entry>)
    requires Enumerates(t, es)
    ensures |es| == |t|
    ensures t.Keys == HashesUpTo(es, |es|)
  {
    HashesUpToCard(es, |es|);
    assert t.Keys == HashesUpTo(es, |es|);
  }

  lemma EnumeratesNothing(t: Table)
    requires Enumerates(t, [])
    ensures t == map[]
  {
  }

  /** Dropping the head of a listing enumerates the rest of the table. */
  lemma EnumeratesTail(t: Table, es: seq<Entry>)
    requires Enumerates(t, es) && es != []
    ensures Enumerates(t - {es[0].hash}, es[1..])
  {
    var t' := t - {es[0].hash};
    var rest := es[1..];
    forall k | k in t'
      ensures exists i :: 0 <= i < |rest| && rest[i].hash == k
    {
      var i :| 0 <= i < |es| && es[i].hash == k;
      assert rest[i - 1].hash == k;
    }
    forall i | 0 <= i < |rest|
      ensures rest[i].hash in t' && t'[rest[i].hash] == rest[i].record
    {
      assert es[0].hash != es[i + 1].hash;
    }
  }

  /** The first entry of a listing is a newest record of the table. */
  lemma ListingHeadIsNewest(t: Table, es: seq<Entry>)
    requires IsListing(t, es) && t != map[]
    ensures es != [] && es[0].hash in t
    ensures forall k :: k in t ==> StampLe(t[k].timestamp, es[0].record.timestamp)
  {
    var k0 :| k0 in t;
    assert exists i :: 0 <= i < |es| && es[i].hash == k0;
    forall k | k in t
      ensures StampLe(t[k].timestamp, es[0].record.timestamp)
    {
      var i :| 0 <= i < |es| && es[i].hash == k;
      assert i == 0 || StampLe(es[i].record.timestamp, es[0].record.timestamp);
    }
  }

  /** A key of `keys` whose record is newest among them. */
  method PickNewest(t: Table, keys: set<string>) returns (k: string)
    requires keys != {} && keys <= t.Keys
    ensures k in keys
    ensures forall j :: j in keys ==> StampLe(t[j].timestamp, t[k].timestamp)
  {
    k :| k in keys;
    var rest := keys - {k};
    while rest != {}
      invariant rest <= keys && k in keys && k !in rest
      invariant forall j :: j in keys && j !in rest ==> StampLe(t[j].timestamp, t[k].timestamp)
      decreases rest
    {
      var j :| j in rest;
      if !StampLe(t[j].timestamp, t[k].timestamp) {
        k := j;
      }
      rest := rest - {j};
    }
  }

  /** The state of the listing loop: `entries` lists, newest first, the
      records whose keys are no longer in `rest`, each at least as new as
      every record still in `rest`. */
  predicate ListedSoFar(t: Table, rest: set<string>, entries: seq<Entry>) {
    && rest <= t.Keys
    && (forall i :: 0 <= i < |entries| ==>
          entries[i].hash in t && entries[i].hash !in rest && t[entries[i].hash] == entries[i].record)
    && (forall k :: k in t && k !in rest ==> exists i :: 0 <= i < |entries| && entries[i].hash == k)
    && DistinctHashes(entries)
    && NewestFirst(entries)
    && (forall i, k :: 0 <= i < |entries| && k in rest ==> StampLe(t[k].timestamp, entries[i].record.timestamp))
  }

  /** Moving a newest remaining record to the end of the listing keeps the
      loop state. */
  lemma ListedSoFarStep(t: Table, rest: set<string>, entries: seq<Entry>, k: string)
    requires ListedSoFar(t, rest, entries) && k in rest
    requires forall j :: j in rest ==> StampLe(t[j].timestamp, t[k].timestamp)
    ensures ListedSoFar(t, rest - {k}, entries + [Entry(k, t[k])])
  {
    var entries' := entries + [Entry(k, t[k])];
    StepMembers(t, rest, entries, k);
    StepCovers(t, rest, entries, k);
    StepDistinct(t, rest, entries, k);
    StepNewest(t, rest, entries, k);
    StepBound(t, rest, entries, k);
  }

  lemma StepMembers(t: Table, rest: set<string>, entries: seq<Entry>, k: string)
    requires ListedSoFar(t, rest, entries) && k in rest
    ensures forall i :: 0 <= i < |entries + [Entry(k, t[k])]| ==>
              var e := (entries + [Entry(k, t[k])])[i];
              e.hash in t && e.hash !in rest - {k} && t[e.hash] == e.record
  {
  }

  lemma StepCovers(t: Table, rest: set<string>, entries: seq<Entry>, k: string)
    requires ListedSoFar(t, rest, entries) && k in rest
    ensures forall j :: j in t && j !in rest - {k} ==>
              exists i :: 0 <= i < |entries + [Entry(k, t[k])]| && (entries + [Entry(k, t[k])])[i].hash == j
  {
    var entries' := entries + [Entry(k, t[k])];
    forall j | j in t && j !in rest - {k}
      ensures exists i :: 0 <= i < |entries'| && entries'[i].hash == j
    {
      if j == k {
        assert entries'[|entries|].hash == j;
      } else {
        var i :| 0 <= i < |entries| && entries[i].hash == j;
        assert entries'[i].hash == j;
      }
    }
  }

  lemma StepDistinct(t: Table, rest: set<string>, entries: seq<Entry>, k: string)
    requires ListedSoFar(t, rest, entries) && k in rest
    ensures DistinctHashes(entries + [Entry(k, t[k])])
  {
  }

  lemma StepNewest(t: Table, rest: set<string>, entries: seq<Entry>, k: string)
    requires ListedSoFar(t, rest, entries) && k in rest
    ensures NewestFirst(entries + [Entry(k, t[k])])
  {
  }

  lemma StepBound(t: Table, rest: set<string>, entries: seq<Entry>, k: string)
    requires ListedSoFar(t, rest, entries) && k in rest
    requires forall j :: j in rest ==> StampLe(t[j].timestamp, t[k].timestamp)
    ensures forall i, j :: 0 <= i < |entries + [Entry(k, t[k])]| && j in rest - {k} ==>
              StampLe(t[j].timestamp, (entries + [Entry(k, t[k])])[i].record.timestamp)
  {
  }

  /** The records of `t` whose `files_affected` lists `path`. */
  function Touching(t: Table, path: string): (r: Table)
    ensures r.Keys <= t.Keys
    ensures forall k :: k in r <==> k in t && path in t[k].filesAffected
  {
    map k | k in t && path in t[k].filesAffected :: t[k]
  }

  /** The entries that list `path`, in their order. */
  function FilterTouching(es: seq<Entry>, path: string): seq<Entry> {
    if es == [] then []
    else
      var last := es[|es| - 1];
      FilterTouching(es[..|es| - 1], path) + (if path in last.record.filesAffected then [last] else [])
  }

  lemma {:induction false} FilterTouchingMembers(es: seq<Entry>, path: string)
    ensures forall x :: x in FilterTouching(es, path) <==> x in es && path in x.record.filesAffected
  {
    if es != [] {
      FilterTouchingMembers(es[..|es| - 1], path);
      assert es == es[..|es| - 1] + [es[|es| - 1]];
    }
  }

  lemma FilterTouchingOrder(es: seq<Entry>, path: string)
    requires NewestFirst(es) && DistinctHashes(es)
    ensures NewestFirst(FilterTouching(es, path)) && DistinctHashes(FilterTouching(es, path))
  {
    FilterTouchingNewest(es, path);
    FilterTouchingDistinct(es, path);
  }

  lemma {:induction false} FilterTouchingNewest(es: seq<Entry>, path: string)
    requires NewestFirst(es)
    ensures NewestFirst(FilterTouching(es, path))
  {
    if es != [] {
      var init := es[..|es| - 1];
      var last := es[|es| - 1];
      FilterTouchingNewest(init, path);
      FilterTouchingMembers(init, path);
      var f := FilterTouching(init, path);
      forall i | 0 <= i < |f|
        ensures StampLe(last.record.timestamp, f[i].record.timestamp)
      {
        assert f[i] in init;
        var j :| 0 <= j < |init| && init[j] == f[i];
        assert es[j] == f[i];
      }
    }
  }

  lemma {:induction false} FilterTouchingDistinct(es: seq<Entry>, path: string)
    requires DistinctHashes(es)
    ensures DistinctHashes(FilterTouching(es, path))
  {
    if es != [] {
      var init := es[..|es| - 1];
      var last := es[|es| - 1];
      FilterTouchingDistinct(init, path);
      FilterTouchingMembers(init, path);
      var f := FilterTouching(init, path);
      forall i | 0 <= i < |f|
        ensures f[i].hash != last.hash
      {
        assert f[i] in init;
        var j :| 0 <= j < |init| && init[j] == f[i];
        assert es[j] == f[i];
      }
    }
  }

  /** Filtering a listing by file lists exactly the records touching it. */
  lemma FilterTouchingListing(t: Table, es: seq<Entry>, path: string)
    requires IsListing(t, es)
    ensures IsListing(Touching(t, path), FilterTouching(es, path))
  {
    FilterTouchingOrder(es, path);
    FilterTouchingMembers(es, path);
    FilteredInTouching(t, es, path, FilterTouching(es, path));
    TouchingInFiltered(t, es, path, FilterTouching(es, path));
  }

  lemma FilteredInTouching(t: Table, es: seq<Entry>, path: string, f: seq<Entry>)
    requires Enumerates(t, es)
    requires forall x :: x in f <==> x in es && path in x.record.filesAffected
    ensures forall i :: 0 <= i < |f| ==> f[i].hash in Touching(t, path) && Touching(t, path)[f[i].hash] == f[i].record
  {
    forall i | 0 <= i < |f|
      ensures f[i].hash in Touching(t, path) && Touching(t, path)[f[i].hash] == f[i].record
    {
      assert f[i] in es;
    }
  }

  lemma TouchingInFiltered(t: Table, es: seq<Entry>, path: string, f: seq<Entry>)
    requires Enumerates(t, es)
    requires forall x :: x in f <==> x in es && path in x.record.filesAffected
    ensures forall k :: k in Touching(t, path) ==> exists i :: 0 <= i < |f| && f[i].hash == k
  {
    forall k | k in Touching(t, path)
      ensures exists i :: 0 <= i < |f| && f[i].hash == k
    {
      var j :| 0 <= j < |es| && es[j].hash == k;
      assert es[j] in f;
      var i :| 0 <= i < |f| && f[i] == es[j];
    }
  }

  /** The entries of a listing before `start` belong to its table. */
  lemma ListingPrefixKeys(t: Table, es: seq<Entry>, start: nat)
    requires Enumerates(t, es) && start <= |es|
    ensures HashesUpTo(es, start) <= t.Keys
    ensures |HashesUpTo(es, start)| == start
  {
    HashesUpToCard(es, start);
  }

  /** Any table holding exactly the first `start` entries of a listing keeps
      `start` newest records. */
  lemma ListingPrefixKeepsNewest(t: Table, es: seq<Entry>, start: nat, after: Table)
    requires IsListing(t, es) && start <= |es|
    requires after.Keys == HashesUpTo(es, start)
    requires forall k :: k in after ==> after[k] == t[k]
    ensures KeepsNewest(t, after, start)
  {
    ListingPrefixKeys(t, es, start);
    assert |after| == |after.Keys|;
    forall a, b | a in after && b in t && b !in after
      ensures StampLe(t[b].timestamp, t[a].timestamp)
    {
      var ia :| 0 <= ia < start && es[ia].hash == a;
      var ib :| 0 <= ib < |es| && es[ib].hash == b;
      assert ib >= start;
    }
  }

  /** In a listing with distinct keys, a later entry's key is none of the
      earlier ones. */
  lemma HashAfter(es: seq<Entry>, start: nat, i: nat)
    requires start <= i < |es| && DistinctHashes(es)
    ensures es[i].hash !in HashesUpTo(es, start)
  {
  }

  /** The deletion loop of `cleanup_old_metadata`: every entry of the listing
      from position `start` on is removed from the table. */
  method DeleteListedFrom(t: Table, es: seq<Entry>, start: nat) returns (table: Table)
    requires start <= |es| && DistinctHashes(es) && t.Keys == HashesUpTo(es, |es|)
    ensures table.Keys == HashesUpTo(es, start)
    ensures forall k :: k in table ==> table[k] == t[k]
  {
    table := t;
    var i := start;
    while i < |es|
      invariant start <= i <= |es|
      invariant table.Keys == t.Keys - (HashesUpTo(es, i) - HashesUpTo(es, start))
      invariant forall k :: k in table ==> table[k] == t[k]
    {
      HashesUpToStep(es, i);
      HashAfter(es, start, i);
      table := table - {es[i].hash};
      i := i + 1;
    }
    assert HashesUpTo(es, start) <= HashesUpTo(es, |es|);
  }

  /** How many entries `checkpoints[keep:]` leaves in front of it. */
  function KeptCount(n: nat, keep: int): (r: nat)
    ensures r <= n
    ensures keep >= 0 ==> r == if keep < n then keep else n
    ensures keep < 0 ==> r == if n + keep > 0 then n + keep else 0
  {
    if keep >= 0 then (if keep < n then keep else n)
    else if n + keep > 0 then n + keep else 0
  }

  /** `after` is `before` cut down to `count` of its newest records. */
  predicate KeepsNewest(before: Table, after: Table, count: nat) {
    && after.Keys <= before.Keys
    && (forall k :: k in after ==> after[k] == before[k])
    && |after| == count
    && (forall a, b :: a in after && b in before && b !in after ==>
          StampLe(before[b].timestamp, before[a].timestamp))
  }

  lemma {:induction false} SubsetCard<T>(a: set<T>, b: set<T>)
    requires a <= b
    ensures |a| <= |b|
    ensures |a| == |b| ==> a == b
  {
    if x :| x in a {
      SubsetCard(a - {x}, b - {x});
    } else if b != {} {
      var y :| y in b;
      assert |b| >= 1;
    }
  }

  /** Keeping at least as many records as there are changes nothing. */
  lemma KeepAllIsIdentity(before: Table, after: Table)
    requires KeepsNewest(before, after, |before|)
    ensures after == before
  {
    SubsetCard(after.Keys, before.Keys);
  }

  // ----- status counts -----

  /** The keys of the records of `t` that carry exactly `status`. */
  function StatusKeys(t: Table, status: string): set<string> {
    set k | k in t && t[k].status == status
  }

  /** How many records of `t` carry exactly `status`. */
  function StatusCount(t: Table, status: string): nat {
    |StatusKeys(t, status)|
  }

  lemma StatusKeysRemove(t: Table, h: string, status: string)
    requires h in t
    ensures h !in StatusKeys(t - {h}, status)
    ensures StatusKeys(t, status) == StatusKeys(t - {h}, status) + (if t[h].status == status then {h} else {})
  {
  }

  /** `sum(1 for c in checkpoints if c.get('status') == status)`. */
  function CountStatus(es: seq<Entry>, status: string): (n: nat)
    ensures n <= |es|
  {
    if es == [] then 0
    else CountStatus(es[1..], status) + (if es[0].record.status == status then 1 else 0)
  }

  /** Counting over a listing counts the table itself. */
  lemma {:induction false} CountStatusOfListing(t: Table, es: seq<Entry>, status: string)
    requires Enumerates(t, es)
    ensures CountStatus(es, status) == StatusCount(t, status)
  {
    if es == [] {
      EnumeratesNothing(t);
      assert StatusKeys(t, status) == {};
    } else {
      var h := es[0].hash;
      EnumeratesTail(t, es);
      CountStatusOfListing(t - {h}, es[1..], status);
      StatusKeysRemove(t, h, status);
    }
  }

  /** Three distinct statuses never count more records than there are. */
  lemma {:induction false} StatusCountsBounded(es: seq<Entry>, a: string, b: string, c: string)
    requires a != b && b != c && a != c
    ensures CountStatus(es, a) + CountStatus(es, b) + CountStatus(es, c) <= |es|
  {
    if es != [] {
      StatusCountsBounded(es[1..], a, b, c);
    }
  }

  // ----- file statistics -----

  /** How often `f` occurs in `xs`. */
  function CountOf(xs: seq<string>, f: string): nat {
    if xs == [] then 0
    else CountOf(xs[..|xs| - 1], f) + (if xs[|xs| - 1] == f then 1 else 0)
  }

  /** How often `f` occurs across the `files_affected` of the entries. */
  function Occurrences(es: seq<Entry>, f: string): nat {
    if es == [] then 0
    else Occurrences(es[..|es| - 1], f) + CountOf(es[|es| - 1].record.filesAffected, f)
  }

  /** Occurrences add up over a concatenation. */
  lemma {:induction false} OccurrencesAppend(a: seq<Entry>, b: seq<Entry>, f: string)
    ensures Occurrences(a + b, f) == Occurrences(a, f) + Occurrences(b, f)
    decreases |b|
  {
    if b == [] {
      assert a + b == a;
    } else {
      var ab := a + b;
      var b' := b[..|b| - 1];
      OccurrencesAppend(a, b', f);
      assert ab[..|ab| - 1] == a + b';
      assert ab[|ab| - 1] == b[|b| - 1];
    }
  }

  /** Taking one entry out of the middle removes exactly its files. */
  lemma OccurrencesWithout(es: seq<Entry>, j: nat, f: string)
    requires j < |es|
    ensures Occurrences(es, f) == Occurrences(es[..j] + es[j + 1..], f) + CountOf(es[j].record.filesAffected, f)
  {
    var left, right := es[..j], es[j + 1..];
    var one := [es[j]];
    assert es == left + one + right;
    OccurrencesAppend(left + one, right, f);
    OccurrencesAppend(left, one, f);
    OccurrencesAppend(left, right, f);
    assert one[..0] == [];
  }

  /** The file occurrences are a property of the table: every enumeration of
      its records, in whatever order, gives the same counts. */
  lemma {:induction false} OccurrencesOfEnumerations(t: Table, es1: seq<Entry>, es2: seq<Entry>, f: string)
    requires Enumerates(t, es1) && Enumerates(t, es2)
    ensures Occurrences(es1, f) == Occurrences(es2, f)
    decreases |es1|
  {
    if es1 == [] {
      NoEntriesNoRecords(t, es1, es2);
      assert Occurrences(es1, f) == Occurrences(es2, f);
    } else {
      var j, t' := Peel(t, es1, es2);
      OccurrencesOfEnumerations(t', es1[..|es1| - 1], es2[..j] + es2[j + 1..], f);
      OccurrencesStep(es1, es2, j, f);
    }
  }

  /** The last entry of one enumeration sits at some `j` in another; without
      them both enumerate the rest of the table. */
  lemma Peel(t: Table, es1: seq<Entry>, es2: seq<Entry>) returns (j: nat, t': Table)
    requires Enumerates(t, es1) && Enumerates(t, es2) && es1 != []
    ensures j < |es2| && es2[j].record == es1[|es1| - 1].record
    ensures Enumerates(t', es1[..|es1| - 1]) && Enumerates(t', es2[..j] + es2[j + 1..])
  {
    var e := es1[|es1| - 1];
    j :| 0 <= j < |es2| && es2[j].hash == e.hash;
    t' := t - {e.hash};
    EnumeratesInit(t, es1);
    EnumeratesWithout(t, es2, j);
  }

  /** Matching the last entry of `es1` with entry `j` of `es2` reduces equal
      counts to equal counts of the rest. */
  lemma OccurrencesStep(es1: seq<Entry>, es2: seq<Entry>, j: nat, f: string)
    requires es1 != [] && j < |es2| && es2[j].record == es1[|es1| - 1].record
    requires Occurrences(es1[..|es1| - 1], f) == Occurrences(es2[..j] + es2[j + 1..], f)
    ensures Occurrences(es1, f) == Occurrences(es2, f)
  {
    OccurrencesWithout(es2, j, f);
  }

  lemma NoEntriesNoRecords(t: Table, es1: seq<Entry>, es2: seq<Entry>)
    requires Enumerates(t, es1) && Enumerates(t, es2) && es1 == []
    ensures es2 == []
  {
    EnumeratesNothing(t);
    HeadListed(t, es2);
  }

  lemma HeadListed(t: Table, es: seq<Entry>)
    requires Enumerates(t, es)
    ensures |es| > 0 ==> es[0].hash in t
  {
  }

  /** Without its last entry, an enumeration enumerates the rest of the table. */
  lemma EnumeratesInit(t: Table, es: seq<Entry>)
    requires Enumerates(t, es) && es != []
    ensures Enumerates(t - {es[|es| - 1].hash}, es[..|es| - 1])
  {
    var n := |es|;
    EnumeratesWithout(t, es, n - 1);
    assert es[..n - 1] + es[n..] == es[..n - 1];
  }

  /** Without its entry at `j`, an enumeration enumerates the rest of the table. */
  lemma EnumeratesWithout(t: Table, es: seq<Entry>, j: nat)
    requires Enumerates(t, es) && j < |es|
    ensures Enumerates(t - {es[j].hash}, es[..j] + es[j + 1..])
  {
    WithoutRecords(t, es, j);
    WithoutDistinct(es, j);
    WithoutCovers(t, es, j);
  }

  /** Position `i` of the sequence without `j` is position `Skip(i, j)` of the whole. */
  lemma WithoutAt(es: seq<Entry>, j: nat, i: nat)
    requires j < |es| && i < |es| - 1
    ensures (es[..j] + es[j + 1..])[i] == es[Skip(i, j)]
  {
  }

  lemma WithoutRecords(t: Table, es: seq<Entry>, j: nat)
    requires Enumerates(t, es) && j < |es|
    ensures var rest := es[..j] + es[j + 1..];
            forall i :: 0 <= i < |rest| ==>
              rest[i].hash in t - {es[j].hash} && (t - {es[j].hash})[rest[i].hash] == rest[i].record
  {
    var rest := es[..j] + es[j + 1..];
    forall i | 0 <= i < |rest|
      ensures rest[i].hash in t - {es[j].hash} && (t - {es[j].hash})[rest[i].hash] == rest[i].record
    {
      WithoutAt(es, j, i);
    }
  }

  lemma WithoutDistinct(es: seq<Entry>, j: nat)
    requires DistinctHashes(es) && j < |es|
    ensures DistinctHashes(es[..j] + es[j + 1..])
  {
    var rest := es[..j] + es[j + 1..];
    forall a, b | 0 <= a < b < |rest|
      ensures rest[a].hash != rest[b].hash
    {
      WithoutAt(es, j, a);
      WithoutAt(es, j, b);
    }
  }

  lemma WithoutCovers(t: Table, es: seq<Entry>, j: nat)
    requires Enumerates(t, es) && j < |es|
    ensures var rest := es[..j] + es[j + 1..];
            forall k :: k in t - {es[j].hash} ==> exists i :: 0 <= i < |rest| && rest[i].hash == k
  {
    var rest := es[..j] + es[j + 1..];
    forall k | k in t - {es[j].hash}
      ensures exists i :: 0 <= i < |rest| && rest[i].hash == k
    {
      var i :| 0 <= i < |es| && es[i].hash == k;
      if i < j {
        WithoutAt(es, j, i);
      } else {
        WithoutAt(es, j, i - 1);
      }
    }
  }

  /** The position in the whole sequence of position `i` once `j` is taken out. */
  function Skip(i: nat, j: nat): nat {
    if i < j then i else i + 1
  }

  /** The count of `f` in a `file_counts` dictionary, zero when absent. */
  function Tally(counts: map<string, nat>, f: string): nat {
    if f in counts then counts[f] else 0
  }

  /** `file_counts` with `order` its keys in insertion order; every stored
      count is positive. */
  ghost predicate TallyShape(counts: map<string, nat>, order: seq<string>) {
    && (forall f :: f in counts <==> f in order)
    && (forall a, b :: 0 <= a < b < |order| ==> order[a] != order[b])
    && (forall f :: f in counts ==> counts[f] > 0)
  }

  /** The inner loop: one record's `files_affected` added to the counts. */
  method TallyFiles(counts: map<string, nat>, order: seq<string>, files: seq<string>)
    returns (counts': map<string, nat>, order': seq<string>)
    requires TallyShape(counts, order)
    ensures TallyShape(counts', order')
    ensures forall f :: Tally(counts', f) == Tally(counts, f) + CountOf(files, f)
  {
    counts', order' := counts, order;
    var j := 0;
    while j < |files|
      invariant 0 <= j <= |files|
      invariant TallyShape(counts', order')
      invariant forall f :: Tally(counts', f) == Tally(counts, f) + CountOf(files[..j], f)
    {
      assert files[..j + 1][..j] == files[..j];
      var f := files[j];
      if f in counts' {
        counts' := counts'[f := counts'[f] + 1];
      } else {
        counts' := counts'[f := 1];
        order' := order' + [f];
      }
      j := j + 1;
    }
    assert files[..j] == files;
  }

  /** The outer loop: the counts over all entries. */
  method CountFiles(entries: seq<Entry>) returns (counts: map<string, nat>, order: seq<string>)
    ensures TallyShape(counts, order)
    ensures forall f :: Tally(counts, f) == Occurrences(entries, f)
  {
    counts, order := map[], [];
    var i := 0;
    while i < |entries|
      invariant 0 <= i <= |entries|
      invariant TallyShape(counts, order)
      invariant forall f :: Tally(counts, f) == Occurrences(entries[..i], f)
    {
      assert entries[..i + 1][..i] == entries[..i];
      counts, order := TallyFiles(counts, order, entries[i].record.filesAffected);
      i := i + 1;
    }
    assert entries[..i] == entries;
  }

  /** The index of the first largest count in `files`. */
  method FirstLargest(files: seq<string>, counts: map<string, nat>) returns (m: nat)
    requires files != []
    requires forall i :: 0 <= i < |files| ==> files[i] in counts
    ensures m < |files|
    ensures forall i :: 0 <= i < |files| ==> counts[files[i]] <= counts[files[m]]
  {
    m := 0;
    var i := 1;
    while i < |files|
      invariant 1 <= i <= |files| && m < i
      invariant forall j :: 0 <= j < i ==> counts[files[j]] <= counts[files[m]]
    {
      if counts[files[i]] > counts[files[m]] {
        m := i;
      }
      i := i + 1;
    }
  }

  const TopFiles := 5

  /** `sorted(file_counts.items(), key=count, reverse=True)[:5]`. Taking the
      first largest remaining count each time yields the same list as
      Python's stable descending sort cut to five. */
  method SelectTop(counts: map<string, nat>, order: seq<string>) returns (top: seq<(string, nat)>)
    requires TallyShape(counts, order)
    ensures |top| <= TopFiles
    ensures forall i :: 0 <= i < |top| ==> top[i].0 in counts && top[i].1 == counts[top[i].0]
    ensures forall i, j :: 0 <= i < j < |top| ==> top[i].1 >= top[j].1 && top[i].0 != top[j].0
    ensures forall f :: f in counts && (forall i :: 0 <= i < |top| ==> top[i].0 != f) ==>
              |top| == TopFiles && counts[f] <= top[|top| - 1].1
  {
    top := [];
    var remaining := order;
    while |top| < TopFiles && remaining != []
      invariant |top| <= TopFiles
      invariant SelectedSoFar(counts, top, remaining)
      decreases |remaining|
    {
      var m := FirstLargest(remaining, counts);
      SelectedSoFarStep(counts, top, remaining, m);
      top := top + [(remaining[m], counts[remaining[m]])];
      remaining := remaining[..m] + remaining[m + 1..];
    }
  }

  /** The state of the selection loop: `top` holds distinct counted files in
      non-increasing order of count, each at least as frequent as every file
      still `remaining`, and every counted file is in one of the two. */
  ghost predicate SelectedSoFar(counts: map<string, nat>, top: seq<(string, nat)>, remaining: seq<string>) {
    && (forall f :: f in remaining ==> f in counts)
    && Distinct(remaining)
    && (forall a :: 0 <= a < |top| ==>
          top[a].0 in counts && counts[top[a].0] == top[a].1 && top[a].0 !in remaining)
    && (forall f :: f in counts ==> f in remaining || exists a :: 0 <= a < |top| && top[a].0 == f)
    && (forall a, b :: 0 <= a < b < |top| ==> top[a].1 >= top[b].1 && top[a].0 != top[b].0)
    && (|top| > 0 ==> forall f :: f in remaining ==> counts[f] <= top[|top| - 1].1)
  }

  /** Moving a most frequent remaining file to the end of `top` keeps the
      loop state. */
  lemma SelectedSoFarStep(counts: map<string, nat>, top: seq<(string, nat)>, remaining: seq<string>, m: nat)
    requires SelectedSoFar(counts, top, remaining) && m < |remaining|
    requires forall i :: 0 <= i < |remaining| ==> counts[remaining[i]] <= counts[remaining[m]]
    ensures SelectedSoFar(counts, top + [(remaining[m], counts[remaining[m]])], remaining[..m] + remaining[m + 1..])
  {
    RemoveAtMembers(remaining, m);
    SelectedRest(counts, top, remaining, m);
    SelectedTop(counts, top, remaining, m);
    SelectedCovers(counts, top, remaining, m);
  }

  /** Removing position `m` from a duplicate-free sequence removes exactly
      its element and keeps it duplicate-free. */
  lemma RemoveAtMembers(xs: seq<string>, m: nat)
    requires m < |xs| && Distinct(xs)
    ensures forall g :: g in xs[..m] + xs[m + 1..] <==> g in xs && g != xs[m]
    ensures Distinct(xs[..m] + xs[m + 1..])
  {
    var rest := xs[..m] + xs[m + 1..];
    forall a | 0 <= a < |rest|
      ensures rest[a] == if a < m then xs[a] else xs[a + 1]
    {
    }
    forall g | g in xs && g != xs[m]
      ensures g in rest
    {
      var a :| 0 <= a < |xs| && xs[a] == g;
      if a < m {
        assert rest[a] == g;
      } else {
        assert rest[a - 1] == g;
      }
    }
  }

  lemma SelectedRest(counts: map<string, nat>, top: seq<(string, nat)>, remaining: seq<string>, m: nat)
    requires SelectedSoFar(counts, top, remaining) && m < |remaining|
    requires forall i :: 0 <= i < |remaining| ==> counts[remaining[i]] <= counts[remaining[m]]
    requires forall g :: g in remaining[..m] + remaining[m + 1..] <==> g in remaining && g != remaining[m]
    ensures forall g :: g in remaining[..m] + remaining[m + 1..] ==> g in counts && counts[g] <= counts[remaining[m]]
  {
    forall g | g in remaining[..m] + remaining[m + 1..]
      ensures g in counts && counts[g] <= counts[remaining[m]]
    {
      var i :| 0 <= i < |remaining| && remaining[i] == g;
    }
  }

  lemma SelectedTop(counts: map<string, nat>, top: seq<(string, nat)>, remaining: seq<string>, m: nat)
    requires SelectedSoFar(counts, top, remaining) && m < |remaining|
    requires forall g :: g in remaining[..m] + remaining[m + 1..] <==> g in remaining && g != remaining[m]
    ensures var top' := top + [(remaining[m], counts[remaining[m]])];
            && (forall a :: 0 <= a < |top'| ==>
                  top'[a].0 in counts && counts[top'[a].0] == top'[a].1 && top'[a].0 !in remaining[..m] + remaining[m + 1..])
            && (forall a, b :: 0 <= a < b < |top'| ==> top'[a].1 >= top'[b].1 && top'[a].0 != top'[b].0)
  {
  }

  lemma SelectedCovers(counts: map<string, nat>, top: seq<(string, nat)>, remaining: seq<string>, m: nat)
    requires SelectedSoFar(counts, top, remaining) && m < |remaining|
    requires forall g :: g in remaining[..m] + remaining[m + 1..] <==> g in remaining && g != remaining[m]
    ensures var top' := top + [(remaining[m], counts[remaining[m]])];
            forall g :: g in counts ==> g in remaining[..m] + remaining[m + 1..] || exists a :: 0 <= a < |top'| && top'[a].0 == g
  {
    var f := remaining[m];
    var top' := top + [(f, counts[f])];
    forall g | g in counts && g !in remaining[..m] + remaining[m + 1..]
      ensures exists a :: 0 <= a < |top'| && top'[a].0 == g
    {
      if g == f {
        assert top'[|top|].0 == g;
      } else {
        var a :| 0 <= a < |top| && top[a].0 == g;
        assert top'[a].0 == g;
      }
    }
  }

  /** `_get_most_modified_files(checkpoints)`: the five files with the most
      occurrences across the entries, most frequent first, each with its
      exact count. */
  method MostModifiedFiles(entries: seq<Entry>) returns (top: seq<(string, nat)>)
    ensures |top| <= TopFiles
    ensures forall i :: 0 <= i < |top| ==> top[i].1 == Occurrences(entries, top[i].0) && top[i].1 > 0
    ensures forall i, j :: 0 <= i < j < |top| ==> top[i].1 >= top[j].1 && top[i].0 != top[j].0
    ensures forall f :: Occurrences(entries, f) > 0 && (forall i :: 0 <= i < |top| ==> top[i].0 != f) ==>
              |top| == TopFiles && Occurrences(entries, f) <= top[|top| - 1].1
  {
    var counts, order := CountFiles(entries);
    top := SelectTop(counts, order);
    forall f | Occurrences(entries, f) > 0
      ensures f in counts && counts[f] == Occurrences(entries, f)
    {
      assert Tally(counts, f) == Occurrences(entries, f);
    }
  }

  /** `get_project_stats`: all zeros and no file or latest fields for an empty
      project. */
  datatype Stats = Stats(
    total: nat,
    successful: nat,
    failed: nat,
    pending: nat,
    mostModified: Option<seq<(string, nat)>>,
    latest: Option<Stamp>)

  // ----- the store -----

  class CheckpointMetadata {
    /** The loaded metadata document. */
    var data: map<string, Table>

    constructor (loaded: map<string, Table>)
      ensures data == loaded
    {
      data := loaded;
    }

    /** `metadata[project]`, or nothing when the project is unknown. */
    function ProjectTable(project: string): Table
      reads this
    {
      TableIn(data, project)
    }

    /** `add_checkpoint`: the project map is created when missing, and the
        new pending record is stored under the checkpoint hash. */
    method AddCheckpoint(project: string, checkpoint: string, toolName: string,
                         toolInput: ToolInput, sessionId: string, now: int) returns (rec: Record)
      modifies this
      ensures rec == Record(At(now), toolName, toolInput, sessionId, Pending, None, None,
                            AffectedFiles(toolName, toolInput))
      ensures data == old(data)[project := old(ProjectTable(project))[checkpoint := rec]]
    {
      if project !in data {
        data := data[project := map[]];
      }
      var files := ExtractFiles(toolName, toolInput);
      rec := Record(At(now), toolName, toolInput, sessionId, Pending, None, None, files);
      data := data[project := data[project][checkpoint := rec]];
    }

    /** `update_checkpoint_status`: only an existing record changes, and only
        then is the file saved. */
    method UpdateCheckpointStatus(project: string, checkpoint: string, status: string,
                                  response: Option<Response>, now: int) returns (saved: bool)
      modifies this
      ensures saved <==> project in old(data) && checkpoint in old(data)[project]
      ensures saved ==> data == old(data)[project := old(data)[project][checkpoint :=
                WithStatus(old(data)[project][checkpoint], status, response, now)]]
      ensures !saved ==> data == old(data)
    {
      saved := project in data && checkpoint in data[project];
      if saved {
        var table := data[project];
        data := data[project := table[checkpoint := WithStatus(table[checkpoint], status, response, now)]];
      }
    }

    /** `get_checkpoint_metadata`. */
    function GetCheckpointMetadata(project: string, checkpoint: string): (r: Option<Record>)
      reads this
      ensures r.Some? <==> project in data && checkpoint in data[project]
      ensures r.Some? ==> r.value == data[project][checkpoint]
    {
      if project in data && checkpoint in data[project] then Some(data[project][checkpoint]) else None
    }

    /** `list_project_checkpoints`: every record of the project once, with its
        hash, newest first; nothing for an unknown project. */
    method ListProjectCheckpoints(project: string) returns (entries: seq<Entry>)
      ensures IsListing(ProjectTable(project), entries)
      ensures project !in data ==> entries == []
    {
      var t := ProjectTable(project);
      entries := [];
      var rest := t.Keys;
      while rest != {}
        invariant ListedSoFar(t, rest, entries)
        decreases rest
      {
        var k := PickNewest(t, rest);
        ListedSoFarStep(t, rest, entries, k);
        entries := entries + [Entry(k, t[k])];
        rest := rest - {k};
      }
      ListingSize(t, entries);
    }

    /** `find_checkpoints_by_file`: the listing filtered, in order, to the
        records whose `files_affected` contains `path` — itself a listing of
        exactly those records. */
    method FindCheckpointsByFile(project: string, path: string) returns (matching: seq<Entry>)
      ensures IsListing(Touching(ProjectTable(project), path), matching)
    {
      var checkpoints := ListProjectCheckpoints(project);
      matching := [];
      var i := 0;
      while i < |checkpoints|
        invariant 0 <= i <= |checkpoints|
        invariant matching == FilterTouching(checkpoints[..i], path)
      {
        assert checkpoints[..i + 1][..i] == checkpoints[..i];
        if path in checkpoints[i].record.filesAffected {
          matching := matching + [checkpoints[i]];
        }
        i := i + 1;
      }
      assert checkpoints[..i] == checkpoints;
      FilterTouchingListing(ProjectTable(project), checkpoints, path);
    }

    /** `cleanup_old_metadata(project, keep_count)`: when the project has more
        records than `keep_count`, the entries from position `keep_count` of
        the newest-first listing on are deleted (Python slice rules, so a
        negative count keeps all but the last `-keep_count`). */
    method CleanupOldMetadata(project: string, keep: int) returns (saved: bool)
      modifies this
      ensures project !in old(data) ==> !saved && data == old(data)
      ensures project in old(data) ==> saved == (|old(data)[project]| > keep)
      ensures project in old(data) ==> project in data && data == old(data)[project := data[project]]
      ensures project in old(data) ==>
                KeepsNewest(old(data)[project], data[project], KeptCount(|old(data)[project]|, keep))
    {
      saved := false;
      if project !in data {
        return;
      }
      var t := data[project];
      var checkpoints := ListProjectCheckpoints(project);
      ListingSize(t, checkpoints);
      var n := |checkpoints|;
      var start := KeptCount(n, keep);
      ListingPrefixKeys(t, checkpoints, start);
      var table := t;
      if n > keep {
        table := DeleteListedFrom(t, checkpoints, start);
        saved := true;
      }
      data := data[project := table];
      ListingPrefixKeepsNewest(t, checkpoints, start, table);
    }

    /** `get_project_stats`. `listing` is the newest-first listing the
        statistics are taken over; by `OccurrencesOfEnumerations` the file
        counts are the same over any enumeration of the project's records. */
    method GetProjectStats(project: string) returns (stats: Stats, ghost listing: seq<Entry>)
      ensures ProjectTable(project) == map[] ==> stats == Stats(0, 0, 0, 0, None, None)
      ensures var t := ProjectTable(project);
        t != map[] ==>
          && stats.total == |t|
          && stats.successful == StatusCount(t, Success)
          && stats.failed == StatusCount(t, Failed)
          && stats.pending == StatusCount(t, Pending)
          && stats.successful + stats.failed + stats.pending <= stats.total
          && stats.latest.Some?
          && (exists k :: k in t && t[k].timestamp == stats.latest.value)
          && (forall k :: k in t ==> StampLe(t[k].timestamp, stats.latest.value))
          && stats.mostModified.Some?
          && |stats.mostModified.value| <= TopFiles
          && (forall i, j :: 0 <= i < j < |stats.mostModified.value| ==>
                stats.mostModified.value[i].1 >= stats.mostModified.value[j].1)
    ensures IsListing(ProjectTable(project), listing)
    ensures stats.mostModified.Some? ==>
              var top := stats.mostModified.value;
              && (forall i :: 0 <= i < |top| ==> top[i].1 == Occurrences(listing, top[i].0) && top[i].1 > 0)
              && (forall i, j :: 0 <= i < j < |top| ==> top[i].0 != top[j].0)
              && (forall f :: Occurrences(listing, f) > 0 && (forall i :: 0 <= i < |top| ==> top[i].0 != f) ==>
                    |top| == TopFiles && Occurrences(listing, f) <= top[|top| - 1].1)
    {
      var t := ProjectTable(project);
      var checkpoints := ListProjectCheckpoints(project);
      listing := checkpoints;
      ListingSize(t, checkpoints);
      if checkpoints == [] {
        return Stats(0, 0, 0, 0, None, None), listing;
      }
      CountStatusOfListing(t, checkpoints, Success);
      CountStatusOfListing(t, checkpoints, Failed);
      CountStatusOfListing(t, checkpoints, Pending);
      StatusCountsBounded(checkpoints, Success, Failed, Pending);
      ListingHeadIsNewest(t, checkpoints);
      var top := MostModifiedFiles(checkpoints);
      stats := Stats(
        |checkpoints|,
        CountStatus(checkpoints, Success),
        CountStatus(checkpoints, Failed),
        CountStatus(checkpoints, Pending),
        Some(top),
        Some(checkpoints[0].record.timestamp));
    }
  }
}
