/** The restore command: choosing a checkpoint by id prefix, by number or
    interactively, searching checkpoints, and the rows of the listing. The
    checkpoints come from the snapshot engine's log, newest first; the
    restore itself is the engine's `restore_checkpoint`, whose answer comes
    in as a parameter. */
module Restore {
  import opened Wrappers
  import opened Text
  import opened Metadata
  import opened GitOps

  // ----- relative times -----

  const Minute := 60
  const Hour := 3600
  const Day := 86400

  /** How long ago something happened, in the unit `format_timestamp`
      picks. */
  datatype Age = JustNow | Minutes(n: nat) | Hours(n: nat) | Days(n: nat)

  /** The bucket of an elapsed time of `delta` seconds; a time in the
      future is "just now". */
  function AgeOf(delta: int): (a: Age)
    ensures a == JustNow <==> delta < Minute
    ensures a.Minutes? ==> Minute <= delta < Hour && 1 <= a.n < 60 && a.n * Minute <= delta < (a.n + 1) * Minute
    ensures a.Hours? ==> Hour <= delta < Day && 1 <= a.n < 24 && a.n * Hour <= delta < (a.n + 1) * Hour
    ensures a.Days? ==> Day <= delta && 1 <= a.n && a.n * Day <= delta < (a.n + 1) * Day
  {
    if delta < Minute then JustNow
    else if delta < Hour then Minutes(delta / Minute)
    else if delta < Day then Hours(delta / Hour)
    else Days(delta / Day)
  }

  /** `f"{n} {unit}{'s' if n != 1 else ''} ago"`. */
  function Ago(n: nat, unit: string): (s: string)
    ensures StartsWith(s, NatToString(n) + " " + unit)
    ensures |s| >= 5 && s[|s| - 4..] == " ago"
    ensures s[|s| - 5] == 's' <==> n != 1 || (unit != [] && unit[|unit| - 1] == 's')
  {
    var plural := if n != 1 then "s" else "";
    var s := NatToString(n) + " " + unit + plural + " ago";
    assert s[..|NatToString(n) + " " + unit|] == NatToString(n) + " " + unit;
    s
  }

  function Render(a: Age): string {
    match a
    case JustNow => "just now"
    case Minutes(n) => Ago(n, "minute")
    case Hours(n) => Ago(n, "hour")
    case Days(n) => Ago(n, "day")
  }

  /** `format_timestamp`. `elapsed` is the number of seconds since the
      timestamp, or `None` when the text is not a timestamp, which is then
      shown as it is. */
  function FormatTimestamp(ts: string, elapsed: Option<int>): (s: string)
    ensures elapsed.None? ==> s == ts
    ensures elapsed.Some? && elapsed.value < Minute ==> s == "just now"
  {
    if elapsed.None? then ts else Render(AgeOf(elapsed.value))
  }

  /** The unit is singular exactly when the number is one. */
  lemma SingularIffOne(delta: int)
    requires delta >= Minute
    ensures var s := FormatTimestamp("", Some(delta));
            |s| >= 5 && (s[|s| - 5] == 's' <==> AgeOf(delta).n != 1)
  {
  }

  // ----- choosing by id -----

  /** `[cp for cp in checkpoints if cp['hash'].startswith(id)]`. */
  function Matching(cps: seq<LogEntry>, id: string): seq<LogEntry> {
    if cps == [] then []
    else
      var last := cps[|cps| - 1];
      Matching(cps[..|cps| - 1], id) + (if StartsWith(last.hash, id) then [last] else [])
  }

  lemma {:induction false} MatchingMembers(cps: seq<LogEntry>, id: string)
    ensures forall x :: x in Matching(cps, id) <==> x in cps && StartsWith(x.hash, id)
  {
    if cps != [] {
      MatchingMembers(cps[..|cps| - 1], id);
      assert cps == cps[..|cps| - 1] + [cps[|cps| - 1]];
    }
  }

  /** A unique match is the only checkpoint with that prefix. */
  lemma UniqueMatchIsOnly(cps: seq<LogEntry>, id: string, x: LogEntry)
    requires |Matching(cps, id)| == 1
    requires x in cps && StartsWith(x.hash, id)
    ensures x == Matching(cps, id)[0]
  {
    MatchingMembers(cps, id);
  }

  /** No commit id repeats in the `git log` listing; the counterpart of
      `Metadata.DistinctHashes` for log entries, stated on the entries for the
      same trigger reason. */
  predicate DistinctIds(cps: seq<LogEntry>) {
    forall i, j :: 0 <= i < j < |cps| ==> cps[i].hash != cps[j].hash
  }

  lemma {:induction false} MatchingUpTo(cps: seq<LogEntry>, id: string, i: nat, n: nat)
    requires i < |cps| && n <= |cps| && StartsWith(cps[i].hash, id)
    requires forall j :: 0 <= j < |cps| && StartsWith(cps[j].hash, id) ==> j == i
    ensures Matching(cps[..n], id) == if n > i then [cps[i]] else []
  {
    if n > 0 {
      MatchingUpTo(cps, id, i, n - 1);
      assert cps[..n][..n - 1] == cps[..n - 1];
    }
  }

  /** Among git's forty-digit ids, a checkpoint's full id selects exactly
      that checkpoint. */
  lemma FullIdSelectsItself(cps: seq<LogEntry>, i: nat)
    requires i < |cps| && DistinctIds(cps)
    requires forall j :: 0 <= j < |cps| ==> |cps[j].hash| == 40
    ensures Matching(cps, cps[i].hash) == [cps[i]]
  {
    var id := cps[i].hash;
    forall j | 0 <= j < |cps| && StartsWith(cps[j].hash, id)
      ensures j == i
    {
      assert cps[j].hash == cps[j].hash[..|id|];
    }
    MatchingUpTo(cps, id, i, |cps|);
    assert cps[..|cps|] == cps;
  }

  /** What `restore_by_id` did: the id it passed to `restore_checkpoint`,
      if it called it, and the exit status. */
  datatype ByIdOutcome = ByIdOutcome(restored: Option<string>, exitCode: int)

  /** `restore_by_id`: no match and an ambiguous prefix both exit with 1; a
      unique match is restored unless this is a dry run, and a failed
      restore exits with 1. */
  function RestoreById(cps: seq<LogEntry>, id: string, dryRun: bool, restore: string -> bool): (r: ByIdOutcome)
    ensures r.restored.Some? <==> |Matching(cps, id)| == 1 && !dryRun
    ensures r.restored.Some? ==> r.restored.value == Matching(cps, id)[0].hash
    ensures r.exitCode == 1 <==> |Matching(cps, id)| != 1 || (!dryRun && !restore(Matching(cps, id)[0].hash))
    ensures r.exitCode == 0 || r.exitCode == 1
  {
    var matching := Matching(cps, id);
    if matching == [] then ByIdOutcome(None, 1)
    else if |matching| > 1 then ByIdOutcome(None, 1)
    else if dryRun then ByIdOutcome(None, 0)
    else ByIdOutcome(Some(matching[0].hash), if restore(matching[0].hash) then 0 else 1)
  }

  /** What is restored is a listed checkpoint whose id starts with the
      given text. */
  lemma RestoredIsListed(cps: seq<LogEntry>, id: string, dryRun: bool, restore: string -> bool)
    requires RestoreById(cps, id, dryRun, restore).restored.Some?
    ensures exists x :: x in cps && x.hash == RestoreById(cps, id, dryRun, restore).restored.value
                        && StartsWith(x.hash, id)
  {
    MatchingMembers(cps, id);
    assert Matching(cps, id)[0] in Matching(cps, id);
  }

  // ----- choosing interactively -----

  /** How `interactive_restore` reads one answer. */
  datatype Choice = Quit | Select(entry: LogEntry) | BadNumber | AmbiguousId | NoMatch

  /** `choice.lower() == 'q'`. */
  predicate IsQuit(answer: string) {
    Lower(answer) == "q"
  }

  /** An answer `int()` accepts is a number in the listing, counted from 1. */
  function ByNumber(cps: seq<LogEntry>, k: int): (c: Choice)
    ensures c.Select? <==> 1 <= k <= |cps|
    ensures c.Select? ==> c.entry == cps[k - 1]
    ensures !c.Select? ==> c == BadNumber
  {
    var index := k - 1;
    if 0 <= index < |cps| then Select(cps[index]) else BadNumber
  }

  /** Any other answer is an id prefix, which must match exactly one
      checkpoint. */
  function ByPrefix(cps: seq<LogEntry>, answer: string): (c: Choice)
    ensures c.Select? <==> |Matching(cps, answer)| == 1
    ensures c.Select? ==> c.entry == Matching(cps, answer)[0]
    ensures c == AmbiguousId <==> |Matching(cps, answer)| > 1
    ensures c == NoMatch <==> Matching(cps, answer) == []
  {
    var matching := Matching(cps, answer);
    if |matching| == 1 then Select(matching[0])
    else if |matching| > 1 then AmbiguousId
    else NoMatch
  }

  /** One answer, already stripped: 'q' in either case quits; text `int()`
      accepts is only ever read as a number; anything else is an id
      prefix. */
  function Interpret(cps: seq<LogEntry>, answer: string): (c: Choice)
    ensures c == Quit <==> IsQuit(answer)
    ensures !IsQuit(answer) && ParseInt(answer).Some? ==> c == ByNumber(cps, ParseInt(answer).value)
    ensures !IsQuit(answer) && ParseInt(answer).None? ==> c == ByPrefix(cps, answer)
  {
    if IsQuit(answer) then Quit
    else
      var number := ParseInt(answer);
      if number.Some? then ByNumber(cps, number.value)
      else ByPrefix(cps, answer)
  }

  /** A number is never taken for an id prefix: "12" picks the twelfth
      checkpoint or is rejected, even when some id starts with "12". */
  lemma NumbersAreOnlyIndices(cps: seq<LogEntry>, answer: string)
    requires !IsQuit(answer) && ParseInt(answer).Some?
    ensures Interpret(cps, answer) != AmbiguousId && Interpret(cps, answer) != NoMatch
    ensures Interpret(cps, answer).Select? <==> 1 <= ParseInt(answer).value <= |cps|
  {
  }

  /** An answer is only ever a listed checkpoint. */
  lemma SelectionIsListed(cps: seq<LogEntry>, answer: string)
    requires Interpret(cps, answer).Select?
    ensures Interpret(cps, answer).entry in cps
  {
    if Lower(answer) != "q" && ParseInt(answer).None? {
      MatchingMembers(cps, answer);
      assert Matching(cps, answer)[0] in Matching(cps, answer);
    }
  }

  /** The first answer that quits or selects decides; the others are asked
      again. Running out of answers (end of input) cancels. */
  function FirstSelection(cps: seq<LogEntry>, answers: seq<string>): Option<LogEntry> {
    if answers == [] then None
    else
      var c := Interpret(cps, Strip(answers[0]));
      if c.Quit? then None
      else if c.Select? then Some(c.entry)
      else FirstSelection(cps, answers[1..])
  }

  lemma {:induction false} FirstSelectionIsListed(cps: seq<LogEntry>, answers: seq<string>)
    requires FirstSelection(cps, answers).Some?
    ensures FirstSelection(cps, answers).value in cps
  {
    var c := Interpret(cps, Strip(answers[0]));
    if c.Select? {
      SelectionIsListed(cps, Strip(answers[0]));
    } else {
      FirstSelectionIsListed(cps, answers[1..]);
    }
  }

  lemma FirstSelectionStep(cps: seq<LogEntry>, answers: seq<string>, i: nat)
    requires i < |answers|
    ensures var c := Interpret(cps, Strip(answers[i]));
      FirstSelection(cps, answers[i..]) ==
        if c.Quit? then None else if c.Select? then Some(c.entry) else FirstSelection(cps, answers[i + 1..])
  {
    assert answers[i..][1..] == answers[i + 1..];
  }

  /** The prompt loop: each answer is read until one quits or selects. */
  method ReadSelection(cps: seq<LogEntry>, answers: seq<string>) returns (selected: Option<LogEntry>)
    ensures selected == FirstSelection(cps, answers)
  {
    var i := 0;
    while i < |answers|
      invariant 0 <= i <= |answers|
      invariant FirstSelection(cps, answers) == FirstSelection(cps, answers[i..])
    {
      FirstSelectionStep(cps, answers, i);
      var choice := Interpret(cps, Strip(answers[i]));
      if choice.Quit? {
        return None;
      } else if choice.Select? {
        return Some(choice.entry);
      }
      i := i + 1;
    }
    assert answers[i..] == [];
    return None;
  }

  /** What `interactive_restore` did. */
  datatype Interaction = Interaction(selected: Option<LogEntry>, restored: Option<string>, exitCode: int)

  /** `interactive_restore`: `answers` are the lines typed at the prompt,
      `confirm` the answer to "Restore to this checkpoint?" (`None` at end
      of input), and `restore` what `restore_checkpoint` returns. End of
      input at the selection prompt cancels; at the confirmation prompt the
      `EOFError` is not caught, so the script ends with status 1. */
  method InteractiveRestore(cps: seq<LogEntry>, answers: seq<string>, confirm: Option<string>,
                            restore: string -> bool) returns (r: Interaction)
    ensures cps == [] ==> r == Interaction(None, None, 0)
    ensures cps != [] ==> r.selected == FirstSelection(cps, answers)
    ensures r.selected.Some? ==> r.selected.value in cps
    ensures r.restored.Some? <==> r.selected.Some? && confirm.Some? && Lower(Strip(confirm.value)) == "y"
    ensures r.restored.Some? ==> r.restored.value == r.selected.value.hash
    ensures r.exitCode == 0 || r.exitCode == 1
    ensures r.exitCode == 1 <==>
              (r.selected.Some? && confirm.None?) || (r.restored.Some? && !restore(r.restored.value))
  {
    if cps == [] {
      return Interaction(None, None, 0);
    }
    var selected := ReadSelection(cps, answers);
    if selected.Some? {
      FirstSelectionIsListed(cps, answers);
    }
    if selected.None? {
      return Interaction(selected, None, 0);
    }
    if confirm.None? {
      return Interaction(selected, None, 1);
    }
    if Lower(Strip(confirm.value)) != "y" {
      return Interaction(selected, None, 0);
    }
    var hash := selected.value.hash;
    r := Interaction(selected, Some(hash), if restore(hash) then 0 else 1);
  }

  // ----- search -----

  /** The search term occurs, ignoring ASCII case, in the message or in one
      of the files the metadata record lists. */
  predicate Hit(e: LogEntry, term: string, t: Table) {
    Contains(Lower(e.message), Lower(term))
    || (e.hash in t && exists i :: 0 <= i < |t[e.hash].filesAffected| &&
                                  Contains(Lower(t[e.hash].filesAffected[i]), Lower(term)))
  }

  /** The checkpoints a search finds, in listing order. */
  function Hits(cps: seq<LogEntry>, term: string, t: Table): seq<LogEntry> {
    if cps == [] then []
    else
      var last := cps[|cps| - 1];
      Hits(cps[..|cps| - 1], term, t) + (if Hit(last, term, t) then [last] else [])
  }

  lemma {:induction false} HitsMembers(cps: seq<LogEntry>, term: string, t: Table)
    ensures forall x :: x in Hits(cps, term, t) <==> x in cps && Hit(x, term, t)
  {
    if cps != [] {
      HitsMembers(cps[..|cps| - 1], term, t);
      assert cps == cps[..|cps| - 1] + [cps[|cps| - 1]];
    }
  }

  /** Each checkpoint is found at most once. */
  lemma {:induction false} HitsDistinct(cps: seq<LogEntry>, term: string, t: Table)
    requires DistinctIds(cps)
    ensures DistinctIds(Hits(cps, term, t))
  {
    if cps != [] {
      var init := cps[..|cps| - 1];
      var last := cps[|cps| - 1];
      HitsDistinct(init, term, t);
      HitsMembers(init, term, t);
      var f := Hits(init, term, t);
      forall a | 0 <= a < |f|
        ensures f[a].hash != last.hash
      {
        assert f[a] in init;
        var j :| 0 <= j < |init| && init[j] == f[a];
        assert cps[j] == f[a];
      }
    }
  }

  /** `any(term.lower() in f.lower() for f in files)`. */
  method AnyFileContains(files: seq<string>, term: string) returns (found: bool)
    ensures found <==> exists i :: 0 <= i < |files| && Contains(Lower(files[i]), Lower(term))
  {
    var i := 0;
    while i < |files|
      invariant 0 <= i <= |files|
      invariant forall j :: 0 <= j < i ==> !Contains(Lower(files[j]), Lower(term))
    {
      if Contains(Lower(files[i]), Lower(term)) {
        return true;
      }
      i := i + 1;
    }
    return false;
  }

  const SearchShown := 10

  /** `search_checkpoints`: `t` is the project's metadata table. Returns
      every match and the at most ten that are shown. */
  method SearchCheckpoints(cps: seq<LogEntry>, term: string, t: Table)
    returns (matching: seq<LogEntry>, shown: seq<LogEntry>)
    ensures matching == Hits(cps, term, t)
    ensures |shown| == if |matching| < SearchShown then |matching| else SearchShown
    ensures shown == matching[..|shown|]
  {
    matching := [];
    var i := 0;
    while i < |cps|
      invariant 0 <= i <= |cps|
      invariant matching == Hits(cps[..i], term, t)
    {
      assert cps[..i + 1][..i] == cps[..i];
      var checkpoint := cps[i];
      if Contains(Lower(checkpoint.message), Lower(term)) {
        matching := matching + [checkpoint];
        i := i + 1;
        continue;
      }
      if checkpoint.hash in t {
        var found := AnyFileContains(t[checkpoint.hash].filesAffected, term);
        if found {
          matching := matching + [checkpoint];
        }
      }
      i := i + 1;
    }
    assert cps[..|cps|] == cps;
    shown := if |matching| < SearchShown then matching else matching[..SearchShown];
  }

  // ----- listing -----

  /** The icon for a record's status; a checkpoint without a record is
      'unknown', and every unknown status shows as '?'. */
  function StatusIcon(status: Option<string>): (c: char)
    ensures status == Some(Success) <==> c == '✓'
    ensures status == Some(Failed) <==> c == '✗'
    ensures status == Some(Pending) <==> c == '⋯'
  {
    if status == Some(Success) then '✓'
    else if status == Some(Failed) then '✗'
    else if status == Some(Pending) then '⋯'
    else '?'
  }

  /** `hash[:8]`. */
  function ShortId(h: string): (s: string)
    ensures |s| == if |h| < 8 then |h| else 8
    ensures StartsWith(h, s)
  {
    if |h| < 8 then h else h[..8]
  }

  /** One printed entry of the listing. */
  datatype Row = Row(number: nat, icon: char, id: string, age: string, message: string, files: seq<string>)

  function RowOf(i: nat, e: LogEntry, t: Table, elapsed: string -> Option<int>): Row {
    var meta := if e.hash in t then Some(t[e.hash]) else None;
    Row(i + 1,
        StatusIcon(if meta.Some? then Some(meta.value.status) else None),
        ShortId(e.hash),
        FormatTimestamp(e.timestamp, elapsed(e.timestamp)),
        e.message,
        if meta.Some? then meta.value.filesAffected else [])
  }

  /** The rows `list_checkpoints` prints for `checkpoints[:limit]` (Python
      slice rules, so a negative limit drops entries from the end), and
      whether it adds the "Showing … out of …" line; an empty listing only
      prints "No checkpoints found". */
  function ListRows(cps: seq<LogEntry>, limit: int, t: Table, elapsed: string -> Option<int>): (r: (seq<Row>, bool))
    ensures |r.0| == KeptCount(|cps|, limit) && |r.0| <= |cps|
    ensures limit >= 0 ==> |r.0| <= limit
    ensures forall i :: 0 <= i < |r.0| ==>
              (r.0[i].number == i + 1 && r.0[i].id == ShortId(cps[i].hash) && r.0[i].message == cps[i].message)
    ensures r.1 <==> cps != [] && |cps| > limit
  {
    var n := KeptCount(|cps|, limit);
    (seq(n, i requires 0 <= i < n => RowOf(i, cps[i], t, elapsed)), cps != [] && |cps| > limit)
  }

  /** Every row's icon reflects the record of the checkpoint it shows. */
  lemma RowIconsFollowRecords(cps: seq<LogEntry>, limit: int, t: Table, elapsed: string -> Option<int>, i: nat)
    requires i < |ListRows(cps, limit, t, elapsed).0|
    ensures var row := ListRows(cps, limit, t, elapsed).0[i];
      && (row.icon == '✓' <==> cps[i].hash in t && t[cps[i].hash].status == Success)
      && (row.icon == '?' <==> cps[i].hash !in t || t[cps[i].hash].status !in {Success, Failed, Pending})
  {
  }

  // ----- command line -----

  datatype Command = Search | List | ById | Interactive

  /** `main`: a non-empty search term first, then `--list`, then a given
      id, and otherwise the interactive prompt. */
  function CommandOf(search: Option<string>, list: bool, id: Option<string>): (c: Command)
    ensures c == Search <==> search.Some? && search.value != []
    ensures c == List <==> !(search.Some? && search.value != []) && list
    ensures c == ById <==> !(search.Some? && search.value != []) && !list && id.Some? && id.value != []
  {
    if search.Some? && search.value != [] then Search
    else if list then List
    else if id.Some? && id.value != [] then ById
    else Interactive
  }
}
