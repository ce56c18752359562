/** The snapshot engine's logic that needs no git (checkpointing/git_ops.py):
    the checkpoint-id check, the metadata size rule of `create_checkpoint`,
    the commit message `create_checkpoint` writes and `list_checkpoints`
    reads back, and the guards of `restore_checkpoint`. The git store is
    abstract: what `git log`, `git notes show` and `git checkout` produce
    is given as parameters. */
module GitOps {
  import opened Wrappers
  import opened Text
  import opened Json
  import opened FileTree
  import opened Sync

  // ----- checkpoint ids -----

  predicate IsLowerHex(c: char) {
    '0' <= c <= '9' || 'a' <= c <= 'f'
  }

  /** A hexadecimal digit in either case. */
  predicate IsHexDigit(c: char) {
    '0' <= c <= '9' || 'a' <= c <= 'f' || 'A' <= c <= 'F'
  }

  /** One to forty characters of `[a-f0-9]`. */
  predicate HexRun(s: string) {
    1 <= |s| <= 40 && forall i :: 0 <= i < |s| ==> IsLowerHex(s[i])
  }

  /** `re.match(r'^[a-f0-9]{1,40}$', s)`: the `$` of Python's `re` also
      matches just before a final newline. */
  predicate HexMatch(s: string) {
    HexRun(s) || (s != [] && s[|s| - 1] == '\n' && HexRun(s[..|s| - 1]))
  }

  /** `_validate_checkpoint_hash(h)`. */
  predicate ValidateCheckpointHash(h: string) {
    h != [] && HexMatch(Lower(h))
  }

  /** A git id or a prefix of one, in either case. */
  predicate HexId(s: string) {
    1 <= |s| <= 40 && forall i :: 0 <= i < |s| ==> IsHexDigit(s[i])
  }

  lemma LowerHex(c: char)
    ensures IsLowerHex(LowerChar(c)) <==> IsHexDigit(c)
    ensures LowerChar(c) == '\n' <==> c == '\n'
  {
  }

  lemma LowerPrefix(s: string, n: nat)
    requires n <= |s|
    ensures Lower(s)[..n] == Lower(s[..n])
  {
  }

  lemma HexRunOfLower(s: string)
    ensures HexRun(Lower(s)) <==> HexId(s)
  {
    forall i | 0 <= i < |s|
      ensures IsLowerHex(Lower(s)[i]) <==> IsHexDigit(s[i])
    {
      LowerHex(s[i]);
    }
  }

  /** An id is accepted exactly when it is one to forty hexadecimal digits
      of either case, optionally followed by one newline. */
  lemma ValidHashDigits(h: string)
    ensures ValidateCheckpointHash(h) <==>
              HexId(h) || (|h| >= 2 && h[|h| - 1] == '\n' && HexId(h[..|h| - 1]))
  {
    HexRunOfLower(h);
    if h != [] {
      LowerHex(h[|h| - 1]);
      LowerPrefix(h, |h| - 1);
      HexRunOfLower(h[..|h| - 1]);
    }
  }

  // ----- metadata size -----

  /** `_validate_metadata_size`: at most 1 MiB of JSON. */
  const MetadataLimit: nat := 1024 * 1024

  /** `v[:n]` on a JSON value: lists and strings slice, anything else raises. */
  function SliceFirst(v: Json, n: nat): (r: Result<Json>)
    ensures r.Ok? <==> v.JList? || v.JStr?
    ensures v.JList? ==> r == Ok(JList(v.items[..Min(n, |v.items|)]))
  {
    match v
    case JList(xs) => Ok(JList(xs[..Min(n, |xs|)]))
    case JStr(s) => Ok(JStr(s[..Min(n, |s|)]))
    case _ => Raised("TypeError")
  }

  /** The metadata `create_checkpoint` attaches as a note, given the size
      of its JSON text: kept when within the limit, otherwise cut down to
      the tool name, the session id and the first ten files. */
  function TruncateMetadata(md: map<string, Json>, size: nat): (r: Result<map<string, Json>>)
    ensures size <= MetadataLimit ==> r == Ok(md)
    ensures size > MetadataLimit && r.Ok? ==>
              && r.value.Keys == {"tool_name", "session_id", "files"}
              && r.value["tool_name"] == Get(md, "tool_name", JStr(""))
              && r.value["session_id"] == Get(md, "session_id", JStr(""))
  {
    if size <= MetadataLimit then Ok(md)
    else
      match SliceFirst(Get(md, "files", JList([])), 10)
      case Raised(e) => Raised(e)
      case Ok(files) =>
        Ok(map["tool_name" := Get(md, "tool_name", JStr("")),
               "session_id" := Get(md, "session_id", JStr("")),
               "files" := files])
  }

  /** Oversized metadata with a file list keeps at most its first ten
      files, all of them when there are no more than ten; without a file
      list it gets an empty one. */
  lemma TruncatedFiles(md: map<string, Json>, size: nat)
    requires size > MetadataLimit
    requires "files" !in md || md["files"].JList?
    ensures TruncateMetadata(md, size).Ok?
    ensures var xs := if "files" in md then md["files"].items else [];
            var files := TruncateMetadata(md, size).value["files"];
            && files.JList? && |files.items| <= 10 && files.items == xs[..|files.items|]
            && (|xs| <= 10 ==> files.items == xs)
  {
  }

  /** Oversized metadata whose `files` entry can not be sliced makes
      `create_checkpoint` raise. */
  lemma TruncateRaises(md: map<string, Json>, size: nat)
    requires size > MetadataLimit && "files" in md && !md["files"].JList? && !md["files"].JStr?
    ensures TruncateMetadata(md, size) == Raised("TypeError")
  {
  }

  // ----- commit messages -----

  const Marker := "CHECKPOINT: "

  /** The commit message `create_checkpoint` writes. */
  function FormatMessage(m: string, ts: string): string {
    Marker + m + " [" + ts + "]"
  }

  /** The description and time `list_checkpoints` reads from what is left
      of a subject once the marker is removed: the stripped text before the
      first `[` and the text after it without trailing `]`, or, for a
      message lacking either bracket, the whole text twice. */
  function Describe(msg: string): (r: (string, string)) {
    if '[' in msg && ']' in msg then
      var parts := Split(msg, '[');
      SplitHasSep(msg, '[');
      (Strip(parts[0]), RStripChar(parts[1], ']'))
    else (msg, msg)
  }

  /** The position of the first `c` in `s`. */
  function FindChar(s: string, c: char): (r: Option<nat>)
    ensures r.Some? ==> r.value < |s| && s[r.value] == c && c !in s[..r.value]
    ensures r.None? ==> c !in s
  {
    if s == [] then None
    else if s[0] == c then Some(0)
    else
      match FindChar(s[1..], c)
      case None => None
      case Some(i) =>
        assert s[..i + 1] == [s[0]] + s[1..][..i];
        Some(i + 1)
  }

  /** `line.split('|', 2)` when it yields three fields. */
  function LogFields(line: string): Option<(string, string, string)> {
    match FindChar(line, '|')
    case None => None
    case Some(i) =>
      var rest := line[i + 1..];
      match FindChar(rest, '|')
      case None => None
      case Some(j) => Some((line[..i], rest[..j], rest[j + 1..]))
  }

  /** One checkpoint as `list_checkpoints` returns it. */
  datatype LogEntry = LogEntry(hash: string, timestamp: string, message: string, metadata: Json)

  /** The note of a commit: its JSON when `git notes show` succeeds and it
      parses, `{}` otherwise. */
  function NoteOf(notes: string -> Option<Json>, hash: string): Json {
    notes(hash).GetOr(JObject(map[]))
  }

  /** One line of `git log --pretty=format:%H|%ai|%s`: an entry when it
      mentions `CHECKPOINT:` and has three `|`-separated fields. */
  function ParseLogLine(line: string, notes: string -> Option<Json>): (r: Option<LogEntry>)
    ensures r.Some? <==> line != [] && Contains(line, "CHECKPOINT:") && LogFields(line).Some?
    ensures r.Some? ==> r.value.hash == LogFields(line).value.0 && r.value.timestamp == LogFields(line).value.1
  {
    if line != [] && Contains(line, "CHECKPOINT:") then
      match LogFields(line)
      case None => None
      case Some(f) => Some(LogEntry(f.0, f.1, Describe(RemoveAll(f.2, Marker)).0, NoteOf(notes, f.0)))
    else None
  }

  /** The entries of the log lines, in order. */
  function ParseLines(lines: seq<string>, notes: string -> Option<Json>): seq<LogEntry> {
    if lines == [] then []
    else
      var last := lines[|lines| - 1];
      ParseLines(lines[..|lines| - 1], notes) + (match ParseLogLine(last, notes) case Some(e) => [e] case None => [])
  }

  /** Every listed entry comes from a checkpoint line of the log, and no
      line gives more than one entry. */
  lemma {:induction false} ParseLinesFrom(lines: seq<string>, notes: string -> Option<Json>)
    ensures |ParseLines(lines, notes)| <= |lines|
    ensures forall e :: e in ParseLines(lines, notes) ==> exists i :: 0 <= i < |lines| && ParseLogLine(lines[i], notes) == Some(e)
  {
    if lines != [] {
      var init := lines[..|lines| - 1];
      ParseLinesFrom(init, notes);
      forall e | e in ParseLines(lines, notes)
        ensures exists i :: 0 <= i < |lines| && ParseLogLine(lines[i], notes) == Some(e)
      {
        if e in ParseLines(init, notes) {
          var i :| 0 <= i < |init| && ParseLogLine(init[i], notes) == Some(e);
          assert lines[i] == init[i];
        } else {
          assert ParseLogLine(lines[|lines| - 1], notes) == Some(e);
        }
      }
    }
  }

  /** `list_checkpoints()`: no repository or a failing `git log` lists
      nothing; otherwise the log output's lines are parsed one by one. */
  method ListCheckpoints(repoExists: bool, log: Option<string>, notes: string -> Option<Json>)
    returns (checkpoints: seq<LogEntry>)
    ensures !repoExists || log.None? ==> checkpoints == []
    ensures repoExists && log.Some? ==> checkpoints == ParseLines(Split(Strip(log.value), '\n'), notes)
  {
    checkpoints := [];
    if repoExists && log.Some? {
      checkpoints := ParseAll(Split(Strip(log.value), '\n'), notes);
    }
  }

  /** The loop over the log's lines. */
  method ParseAll(lines: seq<string>, notes: string -> Option<Json>) returns (checkpoints: seq<LogEntry>)
    ensures checkpoints == ParseLines(lines, notes)
  {
    checkpoints := [];
    var i := 0;
    while i < |lines|
      invariant 0 <= i <= |lines|
      invariant checkpoints == ParseLines(lines[..i], notes)
    {
      var entry := ParseLogLine(lines[i], notes);
      ParseLinesStep(lines, i, notes);
      if entry.Some? {
        checkpoints := checkpoints + [entry.value];
      }
      i := i + 1;
    }
    assert lines[..i] == lines;
  }

  lemma ParseLinesStep(lines: seq<string>, i: nat, notes: string -> Option<Json>)
    requires i < |lines|
    ensures ParseLines(lines[..i + 1], notes)
            == ParseLines(lines[..i], notes) + (match ParseLogLine(lines[i], notes) case Some(e) => [e] case None => [])
  {
    assert lines[..i + 1][..i] == lines[..i];
  }

  lemma {:induction false} FindCharAt(a: string, c: char, rest: string)
    requires c !in a
    ensures FindChar(a + [c] + rest, c) == Some(|a|)
  {
    if a != [] {
      assert (a + [c] + rest)[1..] == a[1..] + [c] + rest;
      FindCharAt(a[1..], c, rest);
    }
  }

  /** A line made of three fields with no `|` in the first two splits back
      into them. */
  lemma LogFieldsOf(a: string, b: string, c: string)
    requires '|' !in a && '|' !in b
    ensures LogFields(a + "|" + b + "|" + c) == Some((a, b, c))
  {
    var line := a + "|" + b + "|" + c;
    assert line == a + ['|'] + (b + "|" + c);
    FindCharAt(a, '|', b + "|" + c);
    var rest := line[|a| + 1..];
    assert line[..|a|] == a;
    assert rest == b + ['|'] + c;
    FindCharAt(b, '|', c);
    assert rest[..|b|] == b && rest[|b| + 1..] == c;
  }

  lemma MarkerRemoved(rest: string)
    requires !Contains(rest, Marker)
    ensures RemoveAll(Marker + rest, Marker) == rest
  {
    var s := Marker + rest;
    assert s[..|Marker|] == Marker;
    assert s[|Marker|..] == rest;
  }

  lemma RStripNoChar(s: string, c: char)
    requires c !in s
    ensures RStripChar(s + [c], c) == s
  {
    assert (s + [c])[..|s|] == s;
  }

  /** A bracketed message reads back as its text, stripped, and its time. */
  lemma DescribeFormatted(m: string, ts: string)
    requires '[' !in m && '[' !in ts && ']' !in ts
    ensures Describe(m + " [" + ts + "]") == (Strip(m), ts)
  {
    var msg := m + " [" + ts + "]";
    assert msg == (m + " ") + ['['] + (ts + "]");
    assert msg[|msg| - 1] == ']';
    assert '[' !in m + " ";
    SplitAtFirst(m + " ", ts + "]", '[');
    SplitNoSep(ts + "]", '[');
    StripTrailingSpace(m, ' ');
    RStripNoChar(ts, ']');
  }

  /** A message without both brackets (an old-style commit) describes
      itself, as description and as time. */
  lemma DescribeLegacy(msg: string)
    requires '[' !in msg || ']' !in msg
    ensures Describe(msg) == (msg, msg)
  {
  }

  /** The subject `create_checkpoint` writes, logged with its id and date,
      lists as an entry with that id and date and the stripped message;
      the time part reads back as written. The id and date hold no `|`,
      the message and time no brackets, and the marker occurs only once. */
  lemma FormatThenParse(hash: string, date: string, m: string, ts: string, notes: string -> Option<Json>)
    requires '|' !in hash && '|' !in date
    requires '[' !in m && ']' !in m && '[' !in ts && ']' !in ts
    requires !Contains(m + " [" + ts + "]", Marker)
    ensures Describe(RemoveAll(FormatMessage(m, ts), Marker)) == (Strip(m), ts)
    ensures ParseLogLine(hash + "|" + date + "|" + FormatMessage(m, ts), notes)
            == Some(LogEntry(hash, date, Strip(m), NoteOf(notes, hash)))
  {
    FormatDescribed(m, ts);
    var line := hash + "|" + date + "|" + FormatMessage(m, ts);
    LogFieldsOf(hash, date, FormatMessage(m, ts));
    MarkerInLine(hash, date, m, ts);
  }

  lemma FormatDescribed(m: string, ts: string)
    requires '[' !in m && ']' !in m && '[' !in ts && ']' !in ts
    requires !Contains(m + " [" + ts + "]", Marker)
    ensures Describe(RemoveAll(FormatMessage(m, ts), Marker)) == (Strip(m), ts)
  {
    assert FormatMessage(m, ts) == Marker + (m + " [" + ts + "]");
    MarkerRemoved(m + " [" + ts + "]");
    DescribeFormatted(m, ts);
  }

  lemma MarkerInLine(hash: string, date: string, m: string, ts: string)
    ensures Contains(hash + "|" + date + "|" + FormatMessage(m, ts), "CHECKPOINT:")
  {
    var line := hash + "|" + date + "|" + FormatMessage(m, ts);
    var at := |hash| + |date| + 2;
    assert line[at..at + |"CHECKPOINT:"|] == "CHECKPOINT:";
    assert OccursAt(line, "CHECKPOINT:", at);
    ContainsAt(line, "CHECKPOINT:");
  }

  // ----- restoring -----

  /** A tree as `git checkout` leaves it in the worktree. */
  datatype Snapshot = Snapshot(files: map<Path, Bytes>, dirs: set<Path>)

  /** `restore_checkpoint(h, dry_run)` on the project tree. `checkedOut` is
      what `git checkout h` yields in the worktree (`None` when it fails).
      A missing repository, an invalid id or a failing checkout return
      false before the project is touched; a dry run returns true and
      touches nothing; otherwise the project goes through
      `_full_restore_sync`, and any exception it raises makes the result
      false. */
  method RestoreCheckpoint(project: Workspace, repoExists: bool, h: string, dryRun: bool,
                           checkedOut: Option<Snapshot>, readText: Bytes -> Option<string>)
    returns (ok: bool)
    requires project.Valid()
    requires checkedOut.Some? ==> WellFormed(checkedOut.value.files, checkedOut.value.dirs)
    modifies project
    ensures project.Valid()
    ensures !repoExists || !ValidateCheckpointHash(h) || checkedOut.None? ==> !ok
    ensures !repoExists || !ValidateCheckpointHash(h) || checkedOut.None? || dryRun ==>
              project.files == old(project.files) && project.dirs == old(project.dirs)
    ensures dryRun ==> (ok <==> repoExists && ValidateCheckpointHash(h) && checkedOut.Some?)
    ensures repoExists && ValidateCheckpointHash(h) && checkedOut.Some? && !dryRun ==>
              var snap := checkedOut.value;
              exists files1, dirs1 ::
                && WellFormed(files1, dirs1)
                && Pruned(old(project.files), old(project.dirs), Stale(snap.files, old(project.files)), files1, dirs1)
                && SyncOutcome(snap.files, snap.dirs, readText, files1, dirs1,
                               if ok then Ok(()) else Raised("Exception"), project.files, project.dirs)
  {
    if !repoExists || !ValidateCheckpointHash(h) || checkedOut.None? {
      return false;
    }
    if dryRun {
      return true;
    }
    var snap := checkedOut.value;
    var worktree := new Workspace(snap.files, snap.dirs);
    var r := FullRestoreSync(worktree, project, readText);
    ok := r.Ok?;
  }
}
