/** The hook entry point: the decisions the pre-tool-use and post-tool-use
    hooks make, and how the command line routes to them. The snapshot
    engine, the configuration file and the metadata store are collaborators;
    what they answer comes in as parameters, and the metadata store is the
    `CheckpointMetadata` object the hooks update. */
module Manager {
  import opened Wrappers
  import opened Text
  import opened Json
  import opened Config
  import opened Metadata
  import opened PosixPath

  /** The tools the pre-tool-use hook snapshots before. */
  predicate Checkpointed(tool: string) {
    IsFileTool(tool) || tool == "Manual"
  }

  /** The base name of the input's `file_path`. */
  function FileName(input: ToolInput): string
    requires input.filePath.Some?
  {
    Name(input.filePath.value)
  }

  /** What the snapshot is taken before, for every tool but `Manual`: the
      commit message is "Before " followed by this. */
  function Action(tool: string, input: ToolInput): string {
    if tool == "Write" then
      if input.filePath.Some? then "creating " + FileName(input) else "creating new file"
    else if tool == "Edit" then
      if input.filePath.Some? then "editing " + FileName(input) else "editing file"
    else if tool == "MultiEdit" then
      if input.filePath.Some? then NatToString(|input.edits|) + " edits to " + FileName(input)
      else "multi-edit operation"
    else tool + " operation"
  }

  /** The commit message for a snapshot taken before `tool` runs. */
  function CheckpointMessage(tool: string, input: ToolInput): (m: string)
    ensures tool != "Manual" ==> StartsWith(m, "Before ")
    ensures tool == "Manual" ==> m == input.message.GetOr("Manual checkpoint")
  {
    if tool == "Manual" then input.message.GetOr("Manual checkpoint")
    else
      var m := "Before " + Action(tool, input);
      assert m[..7] == "Before ";
      m
  }

  /** For a file tool given a `file_path`, the message ends with the file's
      base name. */
  lemma MessageEndsWithName(tool: string, input: ToolInput)
    requires IsFileTool(tool) && input.filePath.Some?
    ensures var m, n := CheckpointMessage(tool, input), Name(input.filePath.value);
            |n| <= |m| && m[|m| - |n|..] == n
  {
    var n := FileName(input);
    var front: string;
    if tool == "Write" {
      front := "creating ";
    } else if tool == "Edit" {
      front := "editing ";
    } else {
      front := NatToString(|input.edits|) + " edits to ";
    }
    assert Action(tool, input) == front + n;
    assert CheckpointMessage(tool, input) == "Before " + (front + n);
    SuffixOfAppend("Before " + front, n);
  }

  lemma SuffixOfAppend(a: string, b: string)
    ensures |b| <= |a + b| && (a + b)[|a + b| - |b|..] == b
  {
  }

  lemma EndsWithSameName(tool: string, input: ToolInput, file: string)
    requires IsFileTool(tool) && input.filePath.Some? && Name(input.filePath.value) == file
    ensures var m := CheckpointMessage(tool, input);
            |file| <= |m| && m[|m| - |file|..] == file
  {
    MessageEndsWithName(tool, input);
  }

  /** For a file written as `d1/…/dk/file`, the message ends with `file`. */
  lemma MessageNamesJoinedFile(tool: string, input: ToolInput, dirs: seq<string>, file: string)
    requires IsFileTool(tool)
    requires forall i :: 0 <= i < |dirs| ==> dirs[i] != [] && dirs[i] != "." && '/' !in dirs[i]
    requires file != [] && file != "." && '/' !in file
    requires input.filePath == Some(Join(dirs + [file], '/'))
    ensures var m := CheckpointMessage(tool, input);
            |file| <= |m| && m[|m| - |file|..] == file
  {
    NameOfJoin(dirs, file);
    EndsWithSameName(tool, input, file);
  }

  /** The `files` list of the snapshot payload: the raw `file_path` when the
      input has one. */
  function PayloadFiles(input: ToolInput): (fs: seq<Json>)
    ensures |fs| <= 1
    ensures fs != [] <==> input.filePath.Some?
    ensures fs != [] ==> fs[0] == JStr(input.filePath.value)
  {
    if input.filePath.Some? then [JStr(input.filePath.value)] else []
  }

  /** The metadata handed to `create_checkpoint`. */
  function Payload(tool: string, input: ToolInput, sessionId: string): (md: map<string, Json>)
    ensures md.Keys == {"tool_name", "session_id", "files"}
    ensures md["tool_name"] == JStr(tool) && md["session_id"] == JStr(sessionId)
    ensures md["files"] == JList(PayloadFiles(input))
  {
    map["tool_name" := JStr(tool), "session_id" := JStr(sessionId), "files" := JList(PayloadFiles(input))]
  }

  /** When a file tool names its file, the payload's `files` and the
      `files_affected` the metadata store records for the same input are the
      same single path. */
  lemma PayloadAgreesWithRecord(tool: string, input: ToolInput, sessionId: string)
    requires IsFileTool(tool) && input.filePath.Some?
    ensures var fs := Payload(tool, input, sessionId)["files"].items;
            |fs| == |AffectedFiles(tool, input)| == 1 && fs[0] == JStr(AffectedFiles(tool, input)[0])
  {
  }

  /** The input's `file_path` is present and the configuration excludes it. */
  predicate Excluded(cfg: Config, input: ToolInput, fnmatch: Matcher, fileSize: Option<nat>) {
    input.filePath.Some? && ShouldExcludeFile(cfg, Normalize(input.filePath.value), fnmatch, fileSize)
  }

  /** What the pre-tool-use hook asks the snapshot engine for. */
  datatype Plan = Skip | Snapshot(message: string, payload: map<string, Json>)

  /** The decision chain of the pre-tool-use hook: a snapshot is requested
      exactly when checkpointing is enabled, the tool modifies files or is a
      manual checkpoint, its file is not excluded, and the project's snapshot
      repository exists or could be created (`repoReady`). */
  function PrePlan(cfg: Config, tool: string, input: ToolInput, sessionId: string,
                   fnmatch: Matcher, fileSize: Option<nat>, repoReady: bool): (p: Plan)
    ensures p.Snapshot? <==>
            cfg.enabled && Checkpointed(tool) && !Excluded(cfg, input, fnmatch, fileSize) && repoReady
    ensures p.Snapshot? ==> p.message == CheckpointMessage(tool, input)
    ensures p.Snapshot? ==> p.payload == Payload(tool, input, sessionId)
  {
    if !cfg.enabled then Skip
    else if !Checkpointed(tool) then Skip
    else if Excluded(cfg, input, fnmatch, fileSize) then Skip
    else if !repoReady then Skip
    else Snapshot(CheckpointMessage(tool, input), Payload(tool, input, sessionId))
  }

  /** With the default configuration, a file tool whose file no pattern
      matches and that is not oversized is snapshotted once the repository
      is ready. */
  lemma DefaultsSnapshotPlainFiles(tool: string, input: ToolInput, sessionId: string,
                                   fnmatch: Matcher, fileSize: Option<nat>)
    requires IsFileTool(tool) && input.filePath.Some?
    requires forall i :: 0 <= i < |DefaultConfig().excludePatterns| ==>
               !fnmatch(Normalize(input.filePath.value), DefaultConfig().excludePatterns[i])
    requires fileSize.None? || fileSize.value <= 1024 * 1024 * 100
    ensures PrePlan(DefaultConfig(), tool, input, sessionId, fnmatch, fileSize, true).Snapshot?
  {
    var path := Normalize(input.filePath.value);
    ShouldExcludeFileIff(DefaultConfig(), path, fnmatch, fileSize);
  }

  /** `if checkpoint_hash:` — the id the snapshot engine returned, when it
      is a non-empty string. */
  function Created(id: Option<string>): (r: Option<string>)
    ensures r.Some? <==> id.Some? && id.value != []
    ensures r.Some? ==> r == id
  {
    if id.Some? && id.value != [] then id else None
  }

  /** The answers of the hook's collaborators: the configuration, the file
      matcher, the size of the file named by `file_path` when it is a regular
      file, whether the project already has a snapshot repository and whether
      creating one succeeds, what `create_checkpoint` returns, the project's
      hash and the current time. */
  datatype Env = Env(cfg: Config, fnmatch: Matcher, fileSize: Option<nat>, isRepo: bool, initOk: bool,
                     create: (string, map<string, Json>) -> Option<string>, project: string, now: int)

  /** The record `add_checkpoint` stores for a new snapshot. */
  function NewRecord(tool: string, input: ToolInput, sessionId: string, now: int): Record {
    Record(At(now), tool, input, sessionId, Pending, None, None, AffectedFiles(tool, input))
  }

  /** The snapshot id the pre-tool-use hook records: present exactly when a
      snapshot was requested and the engine answered with a non-empty id. */
  function PreStored(e: Env, tool: string, input: ToolInput, sessionId: string): (id: Option<string>)
    ensures id.Some? <==>
      && PrePlan(e.cfg, tool, input, sessionId, e.fnmatch, e.fileSize, e.isRepo || e.initOk).Snapshot?
      && e.create(CheckpointMessage(tool, input), Payload(tool, input, sessionId)).Some?
      && e.create(CheckpointMessage(tool, input), Payload(tool, input, sessionId)).value != []
    ensures id.Some? ==> id == e.create(CheckpointMessage(tool, input), Payload(tool, input, sessionId))
  {
    var plan := PrePlan(e.cfg, tool, input, sessionId, e.fnmatch, e.fileSize, e.isRepo || e.initOk);
    if plan.Snapshot? then Created(e.create(plan.message, plan.payload)) else None
  }

  /** The store after the pre-tool-use hook: one new pending record under
      the returned id, or no change at all. */
  ghost predicate PreOutcome(d0: map<string, Table>, d1: map<string, Table>, e: Env,
                             tool: string, input: ToolInput, sessionId: string) {
    var id := PreStored(e, tool, input, sessionId);
    if id.Some? then d1 == d0[e.project := TableIn(d0, e.project)[id.value := NewRecord(tool, input, sessionId, e.now)]]
    else d1 == d0
  }

  /** `handle_pre_tool_use`: returns 0 on every path. `plan` is what was
      asked of the snapshot engine (`Skip` when it was not called), and
      `stored` the id recorded in the metadata store. */
  method HandlePreToolUse(store: CheckpointMetadata, e: Env, tool: string, input: ToolInput, sessionId: string)
    returns (code: int, plan: Plan, stored: Option<string>)
    modifies store
    ensures code == 0
    ensures plan == PrePlan(e.cfg, tool, input, sessionId, e.fnmatch, e.fileSize, e.isRepo || e.initOk)
    ensures stored == PreStored(e, tool, input, sessionId)
    ensures PreOutcome(old(store.data), store.data, e, tool, input, sessionId)
  {
    code := 0;
    stored := None;
    plan := PrePlan(e.cfg, tool, input, sessionId, e.fnmatch, e.fileSize, e.isRepo || e.initOk);
    if plan.Skip? {
      return;
    }
    var id := e.create(plan.message, plan.payload);
    if id.Some? && id.value != [] {
      var rec := store.AddCheckpoint(e.project, id.value, tool, input, sessionId, e.now);
      stored := id;
    }
  }

  /** `'success' if tool_response.get('success', True) else 'failed'`. */
  function StatusFor(response: Response): (s: string)
    ensures s == Success || s == Failed
    ensures s == Success <==> Truthy(Get(response, "success", JBool(true)))
  {
    if Truthy(Get(response, "success", JBool(true))) then Success else Failed
  }

  /** A response that does not mention `success` counts as a success; one
      whose `success` is false, null, zero or empty counts as a failure. */
  lemma StatusDefaults(response: Response)
    ensures "success" !in response ==> StatusFor(response) == Success
    ensures "success" in response && response["success"] in {JBool(false), JNull, JInt(0), JStr(""), JList([])} ==>
              StatusFor(response) == Failed
  {
  }

  /** The post-tool-use hook acts for the file tools only, and not for
      manual checkpoints. */
  predicate PostActs(cfg: Config, tool: string) {
    cfg.enabled && IsFileTool(tool)
  }

  /** The store after the post-tool-use hook: when it acts and the project
      has records, the newest one gets the status the response implies;
      otherwise nothing changes. */
  ghost predicate PostOutcome(d0: map<string, Table>, d1: map<string, Table>, e: Env,
                              tool: string, response: Response) {
    var t := TableIn(d0, e.project);
    if PostActs(e.cfg, tool) && t != map[] then
      exists k :: k in t && (forall j :: j in t ==> StampLe(t[j].timestamp, t[k].timestamp))
                 && d1 == d0[e.project := t[k := WithStatus(t[k], StatusFor(response), Some(response), e.now)]]
    else d1 == d0
  }

  /** `handle_post_tool_use`: returns 0 on every path; `updated` is the id
      whose status was set. */
  method HandlePostToolUse(store: CheckpointMetadata, e: Env, tool: string, response: Response)
    returns (code: int, updated: Option<string>)
    modifies store
    ensures code == 0
    ensures updated.Some? <==> PostActs(e.cfg, tool) && old(store.ProjectTable(e.project)) != map[]
    ensures updated.Some? ==> updated.value in old(store.ProjectTable(e.project))
    ensures PostOutcome(old(store.data), store.data, e, tool, response)
  {
    code := 0;
    updated := None;
    if !PostActs(e.cfg, tool) {
      return;
    }
    var t := store.ProjectTable(e.project);
    var checkpoints := store.ListProjectCheckpoints(e.project);
    if t != map[] {
      ListingHeadIsNewest(t, checkpoints);
    }
    if checkpoints != [] {
      var latest := checkpoints[0];
      var saved := store.UpdateCheckpointStatus(e.project, latest.hash, StatusFor(response), Some(response), e.now);
      updated := Some(latest.hash);
    }
  }

  /** The parsed hook input: the keys the hooks read, with `tool_response`
      present or not. */
  datatype HookInput = HookInput(toolName: string, toolInput: ToolInput, sessionId: string,
                                 toolResponse: Option<Response>)

  datatype Route = ShowStatus | InvalidInput | PostToolUse | PreToolUse

  /** `main`: `--status` comes first; then input that is not JSON is an
      error; then the post-tool-use hook runs iff `--update-status` was
      given or the input has a `tool_response`. */
  function RouteOf(statusFlag: bool, updateFlag: bool, input: Option<HookInput>): (r: Route)
    ensures r == ShowStatus <==> statusFlag
    ensures r == InvalidInput <==> !statusFlag && input.None?
    ensures r == PostToolUse <==> !statusFlag && input.Some? && (updateFlag || input.value.toolResponse.Some?)
  {
    if statusFlag then ShowStatus
    else if input.None? then InvalidInput
    else if updateFlag || input.value.toolResponse.Some? then PostToolUse
    else PreToolUse
  }

  /** A hook route loads the configuration before anything else; a load
      that raises is not caught. */
  predicate LoadRaises(r: Route, loaded: Result<Config>) {
    r in {PreToolUse, PostToolUse} && loaded.Raised?
  }

  /** The process exit status: 1 for input that is not JSON or for a hook
      whose configuration load raises, 0 otherwise. */
  function ExitCode(r: Route, loaded: Result<Config>): (c: int)
    ensures c == 1 <==> r == InvalidInput || LoadRaises(r, loaded)
    ensures c == 0 <==> !(r == InvalidInput || LoadRaises(r, loaded))
  {
    if r == InvalidInput || LoadRaises(r, loaded) then 1 else 0
  }

  /** A hook never fails the tool it runs beside: the exit status is 1 only
      when `--status` was not given and either the input is not JSON or the
      settings file cannot be loaded. */
  lemma HooksNeverBlock(statusFlag: bool, updateFlag: bool, input: Option<HookInput>, settings: SettingsFile)
    ensures ExitCode(RouteOf(statusFlag, updateFlag, input), LoadConfig(settings)) == 1 <==>
              !statusFlag && (input.None? || LoadConfig(settings).Raised?)
  {
  }

  /** `main` after the flags are parsed and stdin is decoded (`None` when it
      is not JSON). Showing the status only prints, so the store is left as
      it was. Each hook first loads `settings`; the configuration it loads
      replaces `e.cfg`, and a load that raises ends the script before the
      store is touched. */
  method RunHook(store: CheckpointMetadata, e: Env, settings: SettingsFile,
                 statusFlag: bool, updateFlag: bool, input: Option<HookInput>)
    returns (code: int)
    modifies store
    ensures code == ExitCode(RouteOf(statusFlag, updateFlag, input), LoadConfig(settings))
    ensures RouteOf(statusFlag, updateFlag, input) in {ShowStatus, InvalidInput} || LoadConfig(settings).Raised? ==>
              store.data == old(store.data)
    ensures RouteOf(statusFlag, updateFlag, input) == PostToolUse && LoadConfig(settings).Ok? ==>
              PostOutcome(old(store.data), store.data, e.(cfg := LoadConfig(settings).value),
                          input.value.toolName, input.value.toolResponse.GetOr(map[]))
    ensures RouteOf(statusFlag, updateFlag, input) == PreToolUse && LoadConfig(settings).Ok? ==>
              PreOutcome(old(store.data), store.data, e.(cfg := LoadConfig(settings).value),
                         input.value.toolName, input.value.toolInput, input.value.sessionId)
  {
    var route := RouteOf(statusFlag, updateFlag, input);
    if route == ShowStatus {
      code := 0;
    } else if route == InvalidInput {
      code := 1;
    } else {
      var loaded := LoadConfig(settings);
      if loaded.Raised? {
        return 1;
      }
      var hook := input.value;
      var env := e.(cfg := loaded.value);
      if route == PostToolUse {
        var updated;
        code, updated := HandlePostToolUse(store, env, hook.toolName, hook.toolResponse.GetOr(map[]));
      } else {
        var plan, stored;
        code, plan, stored := HandlePreToolUse(store, env, hook.toolName, hook.toolInput, hook.sessionId);
      }
    }
  }
}
