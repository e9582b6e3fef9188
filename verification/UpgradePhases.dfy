/** The phases of an upgrade as read from the log of its runner (`upgrade.py`). */
module UpgradePhases {
  import opened Splitting
  import opened Text
  import opened Wrappers

  datatype State = Done | Running | Pending | Failed | Skipped

  datatype Phase = Phase(key: string, state: State, detail: string)

  const PHASES: nat := 6
  const BACKUP: nat := 0
  const STOP: nat := 1
  const CHECKOUT: nat := 2
  const MIGRATIONS: nat := 3
  const RENDER: nat := 4
  const START: nat := 5

  const CHECKOUT_PREFIX := "Moving the checkout to "
  const MIGRATIONS_NONE := "No migrations to run"
  const COMPLETE_MARKER := "upgrade complete:"
  const IMAGES_START := "Removing outdated Docker images"
  const IMAGES_DONE := "Image cleanup "
  const IMAGES_SKIPPED := "skipped"
  const IMAGES_FINISHED := "finished:"

  function Key(k: nat): string
    requires k < PHASES
  {
    ["backup", "stop", "checkout", "migrations", "render", "start"][k]
  }

  // ---------------------------------------------------------------- the lines of a log

  predicate Contains(s: string, part: string) {
    exists i :: 0 <= i <= |s| && part <= s[i..]
  }

  /** The line without `tag`, if it starts with it. */
  function WithoutTag(line: string, tag: string): Option<string> {
    if line == tag then Some("")
    else if tag + " " <= line then Some(line[|tag| + 1..])
    else None
  }

  const TAGS: seq<string> := ["[papaia-ctl]", "[papaia-manager]", "[ok]", "[error]", "[!]"]

  function WithoutTags(line: string, tags: seq<string>): string {
    if tags == [] then line
    else
      match WithoutTag(line, tags[0])
      case Some(rest) => rest
      case None => WithoutTags(line, tags[1..])
  }

  function Clean(raw: string): string {
    WithoutTags(Strip(raw), TAGS)
  }

  /** A line without white space around it is kept as it is unless it begins with one of the tags,
      which is taken off with the space after it. */
  lemma {:induction false} TagsComeOff(line: string, tags: seq<string>)
    ensures var r := WithoutTags(line, tags);
            || (r == line && forall tag :: tag in tags ==> line != tag && !(tag + " " <= line))
            || exists tag :: tag in tags && ((line == tag && r == "") || line == tag + " " + r)
  {
    if tags != [] {
      TagsComeOff(line, tags[1..]);
      assert tags == [tags[0]] + tags[1..];
      if WithoutTag(line, tags[0]).Some? {
        assert line == tags[0] || line == tags[0] + " " + WithoutTags(line, tags);
      }
    }
  }

  lemma CleanedLine(raw: string)
    ensures var tags := ["[papaia-ctl]", "[papaia-manager]", "[ok]", "[error]", "[!]"];
            || (Clean(raw) == Strip(raw) && forall tag :: tag in tags ==> Strip(raw) != tag && !(tag + " " <= Strip(raw)))
            || exists tag :: tag in tags && ((Strip(raw) == tag && Clean(raw) == "") || Strip(raw) == tag + " " + Clean(raw))
  {
    TagsComeOff(Strip(raw), TAGS);
  }

  function Lines(log: string): (lines: seq<string>)
    ensures |lines| == |Split(log, '\n')|
  {
    var raw := Split(log, '\n');
    seq(|raw|, i requires 0 <= i < |raw| => Clean(raw[i]))
  }

  // ---------------------------------------------------------------- the phases

  /** Whether the line announces the phase. */
  predicate Matches(k: nat, line: string) {
    if k == BACKUP then "Creating a restore point" <= line
    else if k == STOP then "Stopping and removing the containers" <= line
    else if k == CHECKOUT then "Moving the checkout to" <= line
    else if k == MIGRATIONS then
      || MIGRATIONS_NONE <= line
      || ("Installing " <= line && Contains(line, "on every node"))
      || ("Running " <= line && Contains(line, "migration"))
    else if k == RENDER then "Applying " <= line && Contains(line, "configuration")
    else if k == START then "Starting every node" <= line || "Starting the stack" <= line
    else false
  }

  /** What papaia-ctl prints as it begins each phase announces that phase. */
  lemma OpeningsMatch(middle: string, rest: string)
    ensures Matches(BACKUP, "Creating a restore point" + rest)
    ensures Matches(STOP, "Stopping and removing the containers" + rest)
    ensures Matches(CHECKOUT, "Moving the checkout to" + rest)
    ensures Matches(MIGRATIONS, "No migrations to run" + rest)
    ensures Matches(MIGRATIONS, "Running " + middle + "migration" + rest)
    ensures Matches(MIGRATIONS, "Installing " + middle + "on every node" + rest)
    ensures Matches(RENDER, "Applying " + middle + "configuration" + rest)
    ensures Matches(START, "Starting the stack" + rest) && Matches(START, "Starting every node" + rest)
  {
    hide Contains;
    OpensWith("Running ", middle, "migration", rest);
    OpensWith("Installing ", middle, "on every node", rest);
    OpensWith("Applying ", middle, "configuration", rest);
  }

  lemma OpensWith(opening: string, middle: string, word: string, rest: string)
    ensures opening <= opening + middle + word + rest && Contains(opening + middle + word + rest, word)
  {
    var line := opening + middle + word + rest;
    var i := |opening + middle|;
    assert line[i..] == word + rest && word <= line[i..];
  }

  /** ... and no other: no line announces two phases, and one that announces any begins like one of
      these. */
  lemma OnePhaseEach(line: string, j: nat, k: nat)
    requires Matches(j, line)
    ensures Matches(k, line) ==> j == k
    ensures || "Creating a restore point" <= line || "Stopping and removing the containers" <= line
            || "Moving the checkout to" <= line || "No migrations to run" <= line
            || "Starting the stack" <= line || "Starting every node" <= line
            || ("Running " <= line && Contains(line, "migration")) || ("Installing " <= line && Contains(line, "on every node"))
            || ("Applying " <= line && Contains(line, "configuration"))
  {
    OpeningLetters(j, line);
    if Matches(k, line) {
      OpeningLetters(k, line);
    }
    hide Contains;
  }

  lemma OpeningLetters(k: nat, line: string)
    requires Matches(k, line)
    ensures k < PHASES && |line| > 2
    ensures if line[0] == 'C' then k == BACKUP
            else if line[0] == 'S' then k == if line[2] == 'o' then STOP else START
            else if line[0] == 'M' then k == CHECKOUT
            else if line[0] == 'A' then k == RENDER
            else k == MIGRATIONS
  {
    hide Contains;
  }

  /** The first line that announces the phase. */
  function Announcement(k: nat, lines: seq<string>): Option<string> {
    if lines == [] then None
    else
      var before := Announcement(k, Init(lines));
      if before.Some? then before
      else if Matches(k, Last(lines)) then Some(Last(lines))
      else None
  }

  predicate Seen(k: nat, lines: seq<string>) {
    Announcement(k, lines).Some?
  }

  ghost predicate IsFirst(k: nat, lines: seq<string>, i: nat) {
    i < |lines| && Matches(k, lines[i]) && forall j :: 0 <= j < i ==> !Matches(k, lines[j])
  }

  lemma {:induction false} AnnouncementIsFirst(k: nat, lines: seq<string>) returns (i: nat)
    ensures i <= |lines| && (Seen(k, lines) <==> i < |lines|)
    ensures Seen(k, lines) ==> IsFirst(k, lines, i) && Announcement(k, lines) == Some(lines[i])
    ensures !Seen(k, lines) ==> forall j :: 0 <= j < |lines| ==> !Matches(k, lines[j])
  {
    hide Matches;
    i := 0;
    if lines != [] {
      i := AnnouncementIsFirst(k, Init(lines));
      assert lines == Init(lines) + [Last(lines)];
      if i == |lines| - 1 && !Matches(k, lines[i]) {
        i := |lines|;
      }
    }
  }

  predicate Complete(lines: seq<string>) {
    exists i :: 0 <= i < |lines| && Contains(lines[i], COMPLETE_MARKER)
  }

  /** No phase from `k` on has been announced, but `k - 1` has, unless `k` is 0. */
  ghost predicate Next(k: nat, lines: seq<string>) {
    && k <= PHASES
    && (forall j :: k <= j < PHASES ==> !Seen(j, lines))
    && (k > 0 ==> Seen(k - 1, lines))
  }

  /** The number of the last phase announced, plus one. */
  function Reached(lines: seq<string>): (k: nat)
    ensures Next(k, lines)
  {
    ReachedBelow(PHASES, lines)
  }

  function ReachedBelow(n: nat, lines: seq<string>): (k: nat)
    requires n <= PHASES && forall j :: n <= j < PHASES ==> !Seen(j, lines)
    ensures Next(k, lines)
  {
    if n == 0 || Seen(n - 1, lines) then n else ReachedBelow(n - 1, lines)
  }

  lemma NextIsReached(k: nat, lines: seq<string>)
    requires Next(k, lines)
    ensures k == Reached(lines)
  {
    var r := Reached(lines);
    assert r > 0 ==> Seen(r - 1, lines);
    assert k > 0 ==> Seen(k - 1, lines);
  }

  function StateOf(k: nat, lines: seq<string>, running: bool): State {
    if Complete(lines) then
      if Seen(k, lines) then Done else Skipped
    else if k + 1 < Reached(lines) then
      if Seen(k, lines) then Done else Skipped
    else if k + 1 == Reached(lines) then
      if running then Running else Failed
    else Pending
  }

  function WithoutDots(s: string): string {
    if s != "" && Last(s) == '.' then WithoutDots(Init(s)) else s
  }

  function Detail(k: nat, line: string): string {
    if k == MIGRATIONS && MIGRATIONS_NONE <= line then "none in this release"
    else if k == CHECKOUT && CHECKOUT_PREFIX <= line then WithoutDots(line[|CHECKOUT_PREFIX|..])
    else ""
  }

  /** What is shown beside a phase: that a release has no migrations, or what the checkout moves to
      without the dots after it; else nothing. */
  lemma DetailIs(k: nat, line: string)
    ensures k == MIGRATIONS && "No migrations to run" <= line ==> Detail(k, line) == "none in this release"
    ensures k == CHECKOUT && "Moving the checkout to " <= line ==> IsWithoutDots(line[23..], Detail(k, line))
    ensures !(k == MIGRATIONS && "No migrations to run" <= line) && !(k == CHECKOUT && "Moving the checkout to " <= line) ==>
              Detail(k, line) == ""
  {
    if k == CHECKOUT && "Moving the checkout to " <= line {
      DotsComeOff(line[23..]);
    }
  }

  ghost predicate IsWithoutDots(s: string, r: string) {
    r <= s && (r == "" || Last(r) != '.') && forall i :: |r| <= i < |s| ==> s[i] == '.'
  }

  lemma {:induction false} DotsComeOff(s: string)
    ensures IsWithoutDots(s, WithoutDots(s))
  {
    if s != "" && Last(s) == '.' {
      DotsComeOff(Init(s));
    }
  }

  function PhaseOf(k: nat, lines: seq<string>, running: bool): Phase
    requires k < PHASES
  {
    Phase(Key(k), StateOf(k, lines, running), Detail(k, (match Announcement(k, lines) case Some(line) => line case None => "")))
  }

  // ---------------------------------------------------------------- the optional image cleanup

  function IndexFrom(lines: seq<string>, from: nat, prefix: string): (i: nat)
    requires from <= |lines|
    ensures from <= i <= |lines|
    ensures i < |lines| ==> prefix <= lines[i]
    ensures forall j :: from <= j < i ==> !(prefix <= lines[j])
    decreases |lines| - from
  {
    if from == |lines| || prefix <= lines[from] then from else IndexFrom(lines, from + 1, prefix)
  }

  function WithoutPrefix(s: string, prefix: string): string {
    if prefix <= s then s[|prefix|..] else s
  }

  function LeftTrimmed(s: string): string {
    if s != "" && (s[0] == ' ' || s[0] == '-') then LeftTrimmed(s[1..]) else s
  }

  /** The first line after the start of the cleanup that says how it ended. */
  function OutcomeLine(lines: seq<string>): nat {
    LineAfter(lines, IMAGES_START, IMAGES_DONE)
  }

  function LineAfter(lines: seq<string>, first: string, second: string): (i: nat)
    ensures i <= |lines| && (i < |lines| ==> second <= lines[i])
  {
    var start := IndexFrom(lines, 0, first);
    if start == |lines| then start else IndexFrom(lines, start + 1, second)
  }

  function ImagesPhase(lines: seq<string>, running: bool): Phase {
    var start := IndexFrom(lines, 0, IMAGES_START);
    if start == |lines| then Phase("images", if running then Pending else Skipped, "")
    else
      var done := OutcomeLine(lines);
      if done == |lines| then Phase("images", if running then Running else Failed, "")
      else
        var outcome := WithoutPrefix(lines[done], IMAGES_DONE);
        if IMAGES_SKIPPED <= outcome then Phase("images", Skipped, LeftTrimmed(WithoutPrefix(outcome, IMAGES_SKIPPED)))
        else Phase("images", Done, Strip(WithoutPrefix(outcome, IMAGES_FINISHED)))
  }

  lemma {:induction false} DashesComeOff(s: string)
    ensures |LeftTrimmed(s)| <= |s| && LeftTrimmed(s) == s[|s| - |LeftTrimmed(s)|..]
    ensures forall i :: 0 <= i < |s| - |LeftTrimmed(s)| ==> s[i] == ' ' || s[i] == '-'
    ensures LeftTrimmed(s) == "" || (LeftTrimmed(s)[0] != ' ' && LeftTrimmed(s)[0] != '-')
  {
    if s != "" && (s[0] == ' ' || s[0] == '-') {
      DashesComeOff(s[1..]);
    }
  }

  ghost predicate IsFirstLine(lines: seq<string>, from: nat, prefix: string, i: nat) {
    from <= i < |lines| && prefix <= lines[i] && forall j :: from <= j < i ==> !(prefix <= lines[j])
  }

  /** What is shown of the cleanup: not yet begun, or never once the container has stopped; begun
      and not ended, or failed; else what the first line after its beginning says it came to. */
  lemma CleanupSays(lines: seq<string>, running: bool, start: nat, end: nat)
    ensures (forall i :: 0 <= i < |lines| ==> !("Removing outdated Docker images" <= lines[i])) ==>
              ImagesPhase(lines, running) == Phase("images", if running then Pending else Skipped, "")
    ensures IsFirstLine(lines, 0, "Removing outdated Docker images", start)
            && (forall i :: start < i < |lines| ==> !("Image cleanup " <= lines[i])) ==>
              ImagesPhase(lines, running) == Phase("images", if running then Running else Failed, "")
    ensures IsFirstLine(lines, 0, "Removing outdated Docker images", start)
            && IsFirstLine(lines, start + 1, "Image cleanup ", end) ==>
              var outcome := lines[end][14..];
              ImagesPhase(lines, running) ==
                if "skipped" <= outcome then Phase("images", Skipped, LeftTrimmed(outcome[7..]))
                else Phase("images", Done, Strip(if "finished:" <= outcome then outcome[9..] else outcome))
  {
    hide Strip, LeftTrimmed;
    var s := IndexFrom(lines, 0, IMAGES_START);
    if IsFirstLine(lines, 0, IMAGES_START, start) {
      assert s == start;
      if IsFirstLine(lines, start + 1, IMAGES_DONE, end) {
        assert IndexFrom(lines, start + 1, IMAGES_DONE) == end;
      }
    }
  }

  // ---------------------------------------------------------------- reading a log

  ghost predicate SeenUpTo(seen: map<nat, string>, lines: seq<string>) {
    && (forall k: nat :: k in seen <==> k < PHASES && Seen(k, lines))
    && (forall k: nat :: k in seen ==> Announcement(k, lines) == Some(seen[k]))
  }

  lemma NothingSeen()
    ensures SeenUpTo(map[], [])
  {
  }

  lemma AnnouncementAfter(k: nat, before: seq<string>, line: string)
    ensures Announcement(k, before + [line]) ==
            if Seen(k, before) then Announcement(k, before) else if Matches(k, line) then Some(line) else None
  {
    hide Matches;
    assert Init(before + [line]) == before;
  }

  /** One line of the log: it is remembered for every phase it is the first to announce. */
  method Note(seen: map<nat, string>, ghost before: seq<string>, line: string) returns (after: map<nat, string>)
    requires SeenUpTo(seen, before)
    ensures SeenUpTo(after, before + [line])
  {
    hide Matches, Announcement;
    after := seen;
    var k: nat := 0;
    while k < PHASES
      invariant k <= PHASES
      invariant forall j: nat :: j < k ==> (j in after <==> Seen(j, before + [line]))
      invariant forall j: nat :: j >= k ==> (j in after <==> j in seen)
      invariant forall j: nat :: j < k && j in after ==> Announcement(j, before + [line]) == Some(after[j])
      invariant forall j: nat :: j >= k && j in after ==> after[j] == seen[j]
    {
      AnnouncementAfter(k, before, line);
      if Matches(k, line) && k !in after {
        after := after[k := line];
      }
      k := k + 1;
    }
  }

  method ReadLines(lines: seq<string>) returns (seen: map<nat, string>, complete: bool)
    ensures SeenUpTo(seen, lines) && complete == Complete(lines)
  {
    hide Matches, Contains, Announcement;
    seen, complete := map[], false;
    NothingSeen();
    assert lines[..0] == [];
    for i := 0 to |lines|
      invariant SeenUpTo(seen, lines[..i])
      invariant complete <==> exists j :: 0 <= j < i && Contains(lines[j], COMPLETE_MARKER)
    {
      seen := Note(seen, lines[..i], lines[i]);
      assert lines[..i + 1] == lines[..i] + [lines[i]];
      complete := complete || Contains(lines[i], COMPLETE_MARKER);
    }
    assert lines[..|lines|] == lines;
  }

  /** `phases_from_log`. */
  method PhasesFromLog(log: string, running: bool, pruneImages: bool) returns (phases: seq<Phase>)
    ensures |phases| == PHASES + if pruneImages then 1 else 0
    ensures forall k :: 0 <= k < PHASES ==> phases[k] == PhaseOf(k, Lines(log), running)
    ensures pruneImages ==> phases[PHASES] == ImagesPhase(Lines(log), running)
    ensures phases[0].key == "backup" && phases[1].key == "stop" && phases[2].key == "checkout"
    ensures phases[3].key == "migrations" && phases[4].key == "render" && phases[5].key == "start"
  {
    KeysAre();
    hide Matches, Lines, Contains, Detail, ImagesPhase, Key, Announcement, Complete;
    var lines := Lines(log);
    var seen, complete := ReadLines(lines);
    var reached: nat := PHASES;
    while reached > 0 && reached - 1 !in seen
      invariant reached <= PHASES && forall j: nat :: reached <= j < PHASES ==> !Seen(j, lines)
    {
      reached := reached - 1;
    }
    NextIsReached(reached, lines);
    phases := [];
    var k: nat := 0;
    while k < PHASES
      invariant |phases| == k <= PHASES
      invariant forall j :: 0 <= j < k ==> phases[j] == PhaseOf(j, lines, running)
    {
      var state :=
        if complete then (if k in seen then Done else Skipped)
        else if k in seen then (if k + 1 < reached then Done else if running then Running else Failed)
        else if k + 1 < reached then Skipped else Pending;
      phases := phases + [Phase(Key(k), state, Detail(k, if k in seen then seen[k] else ""))];
      k := k + 1;
    }
    if pruneImages {
      phases := phases + [ImagesPhase(lines, running)];
    }
  }

  lemma KeysAre()
    ensures Key(0) == "backup" && Key(1) == "stop" && Key(2) == "checkout"
    ensures Key(3) == "migrations" && Key(4) == "render" && Key(5) == "start"
  {
  }

  // ---------------------------------------------------------------- shape

  predicate Passed(s: State) {
    s == Done || s == Skipped
  }

  /** Before a phase that is not pending every phase is done or skipped: so at most one runs or
      has failed, and everything after it is pending. A complete upgrade has only passed phases,
      a running container no failed one, and a stopped container no running one. */
  lemma PhasesHaveAShape(lines: seq<string>, running: bool, j: nat, k: nat)
    requires j < k < PHASES
    ensures StateOf(k, lines, running) != Pending ==> Passed(StateOf(j, lines, running))
    ensures Complete(lines) ==> Passed(StateOf(j, lines, running)) && Passed(StateOf(k, lines, running))
    ensures StateOf(k, lines, running) != if running then Failed else Running
    ensures !Complete(lines) && running ==>
              (StateOf(k, lines, running) == Running <==> Seen(k, lines) && forall i :: k < i < PHASES ==> !Seen(i, lines))
  {
    hide Matches;
    if Seen(k, lines) && forall i :: k < i < PHASES ==> !Seen(i, lines) {
      NextIsReached(k + 1, lines);
    }
  }

  ghost predicate IsAnnounced(k: nat, lines: seq<string>) {
    exists i :: 0 <= i < |lines| && Matches(k, lines[i])
  }

  /** What is shown of a phase: passed, as announced or not, once a later phase is announced or the
      upgrade says that it is complete; in flight, or failed with a stopped container, if it is the
      latest one announced; else still to come. */
  lemma PhaseStates(lines: seq<string>, running: bool, k: nat)
    requires k < PHASES
    ensures var complete := exists i :: 0 <= i < |lines| && Contains(lines[i], "upgrade complete:");
            var later := exists j: nat :: k < j < PHASES && IsAnnounced(j, lines);
            StateOf(k, lines, running) ==
              if complete || later then if IsAnnounced(k, lines) then Done else Skipped
              else if IsAnnounced(k, lines) then if running then Running else Failed
              else Pending
  {
    hide Matches, Contains, Announcement;
    forall j: nat
      ensures Seen(j, lines) <==> IsAnnounced(j, lines)
    {
      var i := AnnouncementIsFirst(j, lines);
    }
    hide Seen, IsAnnounced;
    var r := Reached(lines);
    assert r > 0 ==> Seen(r - 1, lines);
  }

  // ---------------------------------------------------------------- a growing log

  /** What a phase may become when the log grows, the container still running or stopped by then. */
  predicate Forward(before: State, after: State, running: bool) {
    match before
    case Pending => true
    case Running => after == Done || after == if running then Running else Failed
    case Failed => after == Failed || after == Done
    case Skipped => after == Skipped || after == Done
    case Done => after == Done
  }

  /** Whether the cleaned lines of one log are those of another that goes on from it: the last
      line may have been cut short. */
  ghost predicate Grows(before: seq<string>, after: seq<string>) {
    && (forall k :: 0 <= k < PHASES && Seen(k, before) ==> Seen(k, after))
    && (Complete(before) ==> Complete(after))
  }

  ghost predicate AllForward(before: seq<string>, after: seq<string>, running: bool, stillRunning: bool) {
    forall k: nat :: k < PHASES ==> Forward(StateOf(k, before, running), StateOf(k, after, stillRunning), stillRunning)
  }

  /** Between any two readings no phase goes back if and only if everything announced at the first
      is announced at the second. */
  lemma ForwardExactly(before: seq<string>, after: seq<string>, running: bool, stillRunning: bool)
    requires stillRunning ==> running
    ensures AllForward(before, after, running, stillRunning) <==> Grows(before, after)
  {
    hide Announcement, Complete;
    var r, s := Reached(before), Reached(after);
    if Grows(before, after) {
      assert r > 0 ==> Seen(r - 1, after);
    } else if Complete(before) && !Complete(after) {
      assert !Forward(StateOf(PHASES - 1, before, running), StateOf(PHASES - 1, after, stillRunning), stillRunning);
    } else {
      var k: nat :| k < PHASES && Seen(k, before) && !Seen(k, after);
      assert !Forward(StateOf(k, before, running), StateOf(k, after, stillRunning), stillRunning);
    }
  }

  /** Reading more of the log never moves a phase backwards, wherever the first reading was cut
      off, and whether or not the container stopped in between. */
  lemma PhasesMoveForward(log: string, more: string, running: bool, stillRunning: bool, k: nat)
    requires k < PHASES && (stillRunning ==> running)
    ensures Forward(StateOf(k, Lines(log), running), StateOf(k, Lines(log + more), stillRunning), stillRunning)
  {
    hide Lines, Forward, StateOf, Grows;
    LinesGrow(log, more);
    ForwardExactly(Lines(log), Lines(log + more), running, stillRunning);
  }

  /** The page reads the last lines only. Everything the whole log had announced is announced by
      its lines from `n` on. */
  ghost predicate StaysInWindow(before: seq<string>, all: seq<string>, n: nat) {
    && (forall k: nat :: k < PHASES && Seen(k, before) ==> exists i :: n <= i < |all| && Matches(k, all[i]))
    && (Complete(before) ==> exists i :: n <= i < |all| && Contains(all[i], COMPLETE_MARKER))
  }

  /** With the first `n` lines out of sight at the second reading, no phase goes back if and only
      if every phase announced at the first, and the completion, has an announcement in sight. */
  lemma WindowMovesForwardExactly(log: string, more: string, n: nat, running: bool, stillRunning: bool)
    requires n <= |Lines(log + more)| && (stillRunning ==> running)
    ensures AllForward(Lines(log), Lines(log + more)[n..], running, stillRunning)
            <==> StaysInWindow(Lines(log), Lines(log + more), n)
  {
    hide Lines, Matches, Contains, AllForward, Announcement;
    var before, all := Lines(log), Lines(log + more);
    ForwardExactly(before, all[n..], running, stillRunning);
    forall k: nat | k < PHASES
      ensures Seen(k, all[n..]) <==> exists i :: n <= i < |all| && Matches(k, all[i])
    {
      SeenInWindow(k, all, n);
    }
    CompleteInWindow(all, n);
  }

  lemma SeenInWindow(k: nat, all: seq<string>, n: nat)
    requires n <= |all|
    ensures Seen(k, all[n..]) <==> exists i :: n <= i < |all| && Matches(k, all[i])
  {
    hide Matches, Announcement;
    var j := AnnouncementIsFirst(k, all[n..]);
    if i :| n <= i < |all| && Matches(k, all[i]) {
      assert all[n..][i - n] == all[i];
    }
    if Seen(k, all[n..]) {
      assert all[n..][j] == all[n + j];
    }
  }

  lemma CompleteInWindow(all: seq<string>, n: nat)
    requires n <= |all|
    ensures Complete(all[n..]) <==> exists i :: n <= i < |all| && Contains(all[i], COMPLETE_MARKER)
  {
    hide Contains;
    if i :| n <= i < |all| && Contains(all[i], COMPLETE_MARKER) {
      assert all[n..][i - n] == all[i];
    }
    if j :| 0 <= j < |all[n..]| && Contains(all[n..][j], COMPLETE_MARKER) {
      assert all[n..][j] == all[n + j];
    }
  }

  /** With the announcement of the backup out of sight, the backup that was done reads as skipped. */
  lemma WindowLosesBackup()
    ensures var all := ["Creating a restore point", "Stopping and removing the containers"];
            StateOf(BACKUP, all, true) == Done && StateOf(BACKUP, all[1..], true) == Skipped
  {
    hide Matches, Complete;
    var backup, stop := "Creating a restore point", "Stopping and removing the containers";
    var all := [backup, stop];
    assert all[1..] == [stop];
    OnlyMatches(backup, BACKUP);
    OnlyMatches(stop, STOP);
    forall j: nat
      ensures Seen(j, all) <==> j == BACKUP || j == STOP
      ensures Seen(j, [stop]) <==> j == STOP
    {
      assert [] + [backup] == [backup] && [] + [stop] == [stop] && [backup] + [stop] == all;
      AnnouncementAfter(j, [], backup);
      AnnouncementAfter(j, [], stop);
      AnnouncementAfter(j, [backup], stop);
    }
    NextIsReached(2, all);
    NextIsReached(2, [stop]);
    NotComplete(backup, stop);
  }

  lemma OnlyMatches(line: string, k: nat)
    requires (k == BACKUP && line == "Creating a restore point") || (k == STOP && line == "Stopping and removing the containers")
    ensures forall j: nat :: Matches(j, line) <==> j == k
  {
    hide Contains;
    assert line[0] == if k == BACKUP then 'C' else 'S';
    assert line[2] == if k == BACKUP then 'e' else 'o';
  }

  lemma NotComplete(backup: string, stop: string)
    requires backup == "Creating a restore point" && stop == "Stopping and removing the containers"
    ensures !Complete([backup, stop]) && !Complete([stop])
  {
    NoColon(backup);
    NoColon(stop);
  }

  lemma NoColon(line: string)
    requires ':' !in line
    ensures !Contains(line, COMPLETE_MARKER)
  {
    assert COMPLETE_MARKER[16] == ':';
  }

  lemma LinesGrow(log: string, more: string)
    ensures Grows(Lines(log), Lines(log + more))
  {
    hide Matches, Clean, Split, Contains;
    SplitGrows(log, more, '\n');
    var raw, next := Split(log, '\n'), Split(log + more, '\n');
    var before, after := Lines(log), Lines(log + more);
    forall k | 0 <= k < PHASES && Seen(k, before)
      ensures Seen(k, after)
    {
      var i := AnnouncementIsFirst(k, before);
      MatchGrows(k, raw[i], next[i]);
      assert Matches(k, after[i]);
      var j := AnnouncementIsFirst(k, after);
    }
    if Complete(before) {
      var i :| 0 <= i < |before| && Contains(before[i], COMPLETE_MARKER);
      MarkerGrows(raw[i], next[i]);
      assert Contains(after[i], COMPLETE_MARKER);
    }
  }

  /** The pieces of a longer text: the same, but for the last one, which may have grown. */
  lemma {:induction false} SplitGrows(s: string, more: string, sep: char)
    ensures |Split(s, sep)| <= |Split(s + more, sep)|
    ensures forall i :: 0 <= i < |Split(s, sep)| ==> Split(s, sep)[i] <= Split(s + more, sep)[i]
    ensures forall i :: 0 <= i < |Split(s, sep)| - 1 ==> Split(s, sep)[i] == Split(s + more, sep)[i]
    decreases |more|
  {
    if more == "" {
      assert s + more == s;
    } else {
      SplitGrows(s, Init(more), sep);
      assert Init(s + more) == s + Init(more) && Last(s + more) == Last(more);
    }
  }

  lemma ContainsGrows(s: string, t: string, part: string)
    requires s <= t && Contains(s, part)
    ensures Contains(t, part)
  {
    var i :| 0 <= i <= |s| && part <= s[i..];
    assert part <= t[i..];
  }

  /** What a phase is announced with stays there when the line grows. */
  lemma MatchesGrow(k: nat, s: string, t: string)
    requires s <= t && Matches(k, s)
    ensures Matches(k, t) && s != "" && s[0] != '['
  {
    hide Contains;
    if k == MIGRATIONS {
      if Contains(s, "on every node") {
        ContainsGrows(s, t, "on every node");
      }
      if Contains(s, "migration") {
        ContainsGrows(s, t, "migration");
      }
    } else if k == RENDER {
      ContainsGrows(s, t, "configuration");
    }
  }

  lemma MatchGrows(k: nat, raw: string, next: string)
    requires raw <= next && Matches(k, Clean(raw))
    ensures Matches(k, Clean(next))
  {
    hide Matches, Clean;
    CleanGrows(raw, next);
    if Clean(raw) <= Clean(next) {
      MatchesGrow(k, Clean(raw), Clean(next));
    } else {
      MatchesGrow(k, Clean(raw), Clean(raw));
    }
  }

  lemma MarkerGrows(raw: string, next: string)
    requires raw <= next && Contains(Clean(raw), COMPLETE_MARKER)
    ensures Contains(Clean(next), COMPLETE_MARKER)
  {
    hide Clean, Contains;
    CleanGrows(raw, next);
    if Clean(raw) <= Clean(next) {
      ContainsGrows(Clean(raw), Clean(next), COMPLETE_MARKER);
    } else {
      ContainsIsLong(Clean(raw), COMPLETE_MARKER);
    }
  }

  lemma ContainsIsLong(s: string, part: string)
    requires Contains(s, part)
    ensures |part| <= |s|
  {
  }

  /** A line that grows keeps its cleaned text, unless that was a tag cut short. */
  lemma CleanGrows(raw: string, next: string)
    requires raw <= next
    ensures Clean(raw) <= Clean(next) || (0 < |Clean(raw)| <= 16 && Clean(raw)[0] == '[')
  {
    hide Strip;
    StripGrows(raw, next);
    if Strip(raw) == "" {
      NoTag(TAGS);
    } else {
      TagsGrow(Strip(raw), Strip(next), TAGS);
    }
  }

  lemma {:induction false} NoTag(tags: seq<string>)
    requires forall i :: 0 <= i < |tags| ==> 0 < |tags[i]|
    ensures WithoutTags("", tags) == ""
  {
    if tags != [] {
      NoTag(tags[1..]);
    }
  }

  ghost predicate IsTag(tag: string) {
    2 <= |tag| <= 16 && tag[0] == '[' && Last(tag) == ']' && ']' !in Init(tag)
  }

  lemma {:induction false} TagsGrow(s: string, t: string, tags: seq<string>)
    requires s <= t && s != ""
    requires forall i :: 0 <= i < |tags| ==> IsTag(tags[i])
    ensures WithoutTags(s, tags) <= WithoutTags(t, tags) || (WithoutTags(s, tags) == s && |s| <= 16 && s[0] == '[')
  {
    if tags != [] {
      var tag := tags[0];
      assert IsTag(tag);
      if WithoutTag(s, tag).None? {
        if WithoutTag(t, tag).Some? {
          ShortOfTag(s, t, tag);
          UntaggedIsWhole(s, tags);
        } else {
          TagsGrow(s, t, tags[1..]);
        }
      } else {
        TaggedGrows(s, t, tag);
      }
    }
  }

  lemma ShortOfTag(s: string, t: string, tag: string)
    requires s <= t && s != "" && IsTag(tag) && WithoutTag(s, tag).None? && WithoutTag(t, tag).Some?
    ensures |s| < |tag| && s[0] == '[' && ']' !in s
  {
    assert tag <= t;
    assert (tag + " ")[..|tag|] == tag;
    assert |s| == |tag| ==> s == tag;
    assert |s| > |tag| ==> tag + " " <= s;
    assert forall i :: 0 <= i < |s| ==> s[i] == Init(tag)[i];
  }

  lemma TaggedGrows(s: string, t: string, tag: string)
    requires s <= t && WithoutTag(s, tag).Some?
    ensures WithoutTag(s, tag).value == "" || (WithoutTag(t, tag).Some? && WithoutTag(s, tag).value <= WithoutTag(t, tag).value)
  {
  }

  lemma {:induction false} UntaggedIsWhole(s: string, tags: seq<string>)
    requires ']' !in s && forall i :: 0 <= i < |tags| ==> IsTag(tags[i])
    ensures WithoutTags(s, tags) == s
  {
    if tags != [] {
      var tag := tags[0];
      assert IsTag(tag) && tag[|tag| - 1] == ']';
      assert (tag + " ")[|tag| - 1] == ']';
      UntaggedIsWhole(s, tags[1..]);
    }
  }

  /** Stripping a longer text leaves at least what stripping the shorter one left. */
  lemma {:induction false} StripGrows(s: string, t: string)
    requires s <= t
    ensures Strip(s) <= Strip(t)
  {
    if s != "" {
      if IsSpace(s[0]) {
        StripGrows(s[1..], t[1..]);
      } else {
        StripKeepsStart(s);
        StripKeepsInside(Strip(s), t);
      }
    }
  }

  lemma {:induction false} StripKeepsStart(s: string)
    requires s != "" && !IsSpace(s[0])
    ensures Strip(s) != "" && Strip(s) <= s && !IsSpace(Strip(s)[0]) && !IsSpace(Last(Strip(s)))
  {
    if IsSpace(Last(s)) {
      StripKeepsStart(Init(s));
    }
  }

  lemma {:induction false} StripKeepsInside(inside: string, s: string)
    requires inside != "" && inside <= s && !IsSpace(inside[0]) && !IsSpace(Last(inside))
    ensures inside <= Strip(s)
  {
    if IsSpace(Last(s)) {
      StripKeepsInside(inside, Init(s));
    }
  }

  // ---------------------------------------------------------------- the cleanup phase

  lemma {:induction false} IndexFromGrows(before: seq<string>, after: seq<string>, from: nat, prefix: string)
    requires before <= after && from <= |before|
    ensures IndexFrom(before, from, prefix) <= IndexFrom(after, from, prefix)
    ensures IndexFrom(before, from, prefix) < |before| ==> IndexFrom(before, from, prefix) == IndexFrom(after, from, prefix)
    decreases |before| - from
  {
    if from < |before| && !(prefix <= before[from]) {
      IndexFromGrows(before, after, from + 1, prefix);
    }
  }

  /** Once the cleanup has said how it ended, that stays; before, it moves forward, as long as the
      log grows by whole lines. A stopped container settles it. */
  lemma ImagesMoveForward(before: seq<string>, after: seq<string>, stillRunning: bool)
    requires before <= after
    ensures var s, t := ImagesPhase(before, true).state, ImagesPhase(after, stillRunning).state;
            && (s == Running ==> t != Pending)
            && (Passed(s) ==> ImagesPhase(after, stillRunning) == ImagesPhase(before, true))
            && (t == Pending || t == Running ==> stillRunning)
  {
    hide Strip, LeftTrimmed, WithoutPrefix, IndexFrom;
    IndexFromGrows(before, after, 0, IMAGES_START);
    var start := IndexFrom(before, 0, IMAGES_START);
    if start < |before| {
      IndexFromGrows(before, after, start + 1, IMAGES_DONE);
    }
  }

  lemma {:induction false} IndexInWindow(lines: seq<string>, n: nat, from: nat, prefix: string)
    requires n <= from <= |lines|
    ensures IndexFrom(lines[n..], from - n, prefix) == IndexFrom(lines, from, prefix) - n
    decreases |lines| - from
  {
    if from < |lines| && !(prefix <= lines[from]) {
      IndexInWindow(lines, n, from + 1, prefix);
    }
  }

  lemma {:induction false} IndexOfOnly(lines: seq<string>, from: nat, prefix: string, at: nat)
    requires from <= |lines| && (at < |lines| ==> from <= at && prefix <= lines[at])
    requires at <= |lines| && forall j :: from <= j < |lines| && j != at ==> !(prefix <= lines[j])
    ensures IndexFrom(lines, from, prefix) == at
    decreases |lines| - from
  {
    if from < at {
      IndexOfOnly(lines, from + 1, prefix, at);
    }
  }

  lemma SameCleanup(x: seq<string>, y: seq<string>, running: bool)
    requires IndexFrom(x, 0, IMAGES_START) < |x| && IndexFrom(y, 0, IMAGES_START) < |y|
    requires OutcomeLine(x) == |x| <==> OutcomeLine(y) == |y|
    requires OutcomeLine(x) < |x| && OutcomeLine(y) < |y| ==> x[OutcomeLine(x)] == y[OutcomeLine(y)]
    ensures ImagesPhase(x, running) == ImagesPhase(y, running)
  {
    hide Strip, LeftTrimmed, WithoutPrefix, IndexFrom, LineAfter;
  }

  lemma CleanupInSight(all: seq<string>, n: nat, start: nat, running: bool)
    requires n <= start < |all| && IndexFrom(all, 0, IMAGES_START) == start
    requires IndexFrom(all, n, IMAGES_START) == start
    ensures ImagesPhase(all[n..], running) == ImagesPhase(all, running)
  {
    hide ImagesPhase, IndexFrom;
    var window := all[n..];
    IndexInWindow(all, n, n, IMAGES_START);
    IndexInWindow(all, n, start + 1, IMAGES_DONE);
    assert OutcomeLine(window) == OutcomeLine(all) - n;
    SameCleanup(window, all, running);
  }

  lemma CleanupSeenOrPending(lines: seq<string>)
    ensures ImagesPhase(lines, true).state == Pending <==> IndexFrom(lines, 0, IMAGES_START) == |lines|
    ensures ImagesPhase(lines, true).state in {Pending, Running, Done, Skipped}
  {
    hide Strip, LeftTrimmed, WithoutPrefix, IndexFrom;
  }

  /** With the first `n` lines out of sight, the cleanup still only moves forward if and only if
      its start is in sight. It is announced once. */
  lemma WindowKeepsCleanupExactly(before: seq<string>, all: seq<string>, n: nat, start: nat)
    requires before <= all && n <= |all| && start < |before|
    requires forall j :: 0 <= j < |all| ==> (IMAGES_START <= all[j] <==> j == start)
    ensures var s, t := ImagesPhase(before, true), ImagesPhase(all[n..], true);
            (s.state == Running ==> t.state != Pending) && (Passed(s.state) ==> t == s) <==> n <= start
  {
    hide ImagesPhase, IndexFrom;
    IndexOfOnly(before, 0, IMAGES_START, start);
    IndexOfOnly(all, 0, IMAGES_START, start);
    CleanupSeenOrPending(before);
    CleanupSeenOrPending(all[n..]);
    if n <= start {
      IndexOfOnly(all, n, IMAGES_START, start);
      CleanupInSight(all, n, start, true);
      ImagesMoveForward(before, all, true);
    } else {
      IndexOfOnly(all[n..], 0, IMAGES_START, |all| - n);
    }
  }

  lemma LinesShare(log: string, more: string)
    ensures |Lines(log)| <= |Lines(log + more)| && Lines(log) != []
    ensures forall i :: 0 <= i < |Lines(log)| - 1 ==> Lines(log)[i] == Lines(log + more)[i]
    ensures var last := |Lines(log)| - 1;
            Lines(log)[last] <= Lines(log + more)[last] || (Lines(log)[last] != "" && Lines(log)[last][0] == '[')
  {
    hide Clean, Split;
    SplitGrows(log, more, '\n');
    var raw, next := Split(log, '\n'), Split(log + more, '\n');
    CleanGrows(raw[|raw| - 1], next[|raw| - 1]);
  }

  lemma {:induction false} SameIndex(before: seq<string>, after: seq<string>, from: nat, prefix: string)
    requires from <= |before| <= |after| && IndexFrom(before, from, prefix) < |before|
    requires var i := IndexFrom(before, from, prefix);
             prefix <= after[i] && forall j :: from <= j < i ==> after[j] == before[j]
    ensures IndexFrom(after, from, prefix) == IndexFrom(before, from, prefix)
    decreases |before| - from
  {
    if !(prefix <= before[from]) {
      SameIndex(before, after, from + 1, prefix);
    }
  }

  lemma SameLineAfter(before: seq<string>, after: seq<string>, first: string, second: string)
    requires |before| <= |after| && LineAfter(before, first, second) < |before|
    requires second <= after[LineAfter(before, first, second)]
    requires forall j :: 0 <= j < LineAfter(before, first, second) ==> after[j] == before[j]
    ensures LineAfter(after, first, second) == LineAfter(before, first, second)
  {
    hide IndexFrom;
    SameIndex(before, after, 0, first);
    SameIndex(before, after, IndexFrom(before, 0, first) + 1, second);
  }

  function Outcome(line: string): string {
    WithoutPrefix(line, IMAGES_DONE)
  }

  lemma ImagesByOutcome(lines: seq<string>, running: bool)
    ensures var i := OutcomeLine(lines);
            && (ImagesPhase(lines, running).state == Done <==> i < |lines| && !(IMAGES_SKIPPED <= Outcome(lines[i])))
            && (i < |lines| && IMAGES_SKIPPED <= Outcome(lines[i]) ==> ImagesPhase(lines, running).state == Skipped)
  {
    hide Strip, LeftTrimmed;
  }

  /** The cleanup goes back from done to skipped if and only if its outcome was on the last line,
      which was cut before it said so. */
  lemma CutOutcomeMovesBackExactly(log: string, more: string, running: bool, stillRunning: bool)
    ensures var before, after := Lines(log), Lines(log + more);
            var i := OutcomeLine(before);
            && |before| <= |after|
            && (ImagesPhase(before, running).state == Done && ImagesPhase(after, stillRunning).state == Skipped
                <==> i == |before| - 1 && !(IMAGES_SKIPPED <= Outcome(before[i])) && IMAGES_SKIPPED <= Outcome(after[i]))
  {
    hide Lines, IndexFrom, ImagesPhase, LineAfter, Outcome;
    LinesShare(log, more);
    var before, after := Lines(log), Lines(log + more);
    var i := OutcomeLine(before);
    ImagesByOutcome(before, running);
    ImagesByOutcome(after, stillRunning);
    if i < |before| {
      assert before[i][0] == IMAGES_DONE[0] == 'I';
      SameLineAfter(before, after, IMAGES_START, IMAGES_DONE);
    }
  }

  /** "Image cleanup s" reads as done, and the whole line as skipped. */
  lemma CutOutcomeMovesBack()
    ensures var log := IMAGES_START + "\nImage cleanup s";
            && ImagesPhase(Lines(log), true).state == Done
            && ImagesPhase(Lines(log + "kipped"), true).state == Skipped
  {
    hide Lines, Strip;
    var cut, whole := "Image cleanup s", "Image cleanup skipped";
    CleanupLines(cut);
    CleanupLines(whole);
    assert IMAGES_START + "\n" + cut == IMAGES_START + "\nImage cleanup s";
    assert IMAGES_START + "\n" + whole == IMAGES_START + "\nImage cleanup s" + "kipped";
    OutcomeOf(cut);
    OutcomeOf(whole);
  }

  lemma OutcomeOf(last: string)
    requires IMAGES_DONE <= last && !(IMAGES_START <= last)
    ensures ImagesPhase([IMAGES_START, last], true).state == if IMAGES_SKIPPED <= last[|IMAGES_DONE|..] then Skipped else Done
  {
    hide Strip, LeftTrimmed;
    var lines := [IMAGES_START, last];
    assert IndexFrom(lines, 0, IMAGES_START) == 0;
    assert IndexFrom(lines, 1, IMAGES_DONE) == 1;
  }

  lemma CleanupLines(last: string)
    requires '\n' !in last && last != "" && last[0] != '[' && !IsSpace(last[0]) && !IsSpace(Last(last))
    ensures Lines(IMAGES_START + "\n" + last) == [IMAGES_START, last]
  {
    hide Strip, Split, WithoutTags;
    var pieces := [IMAGES_START, last];
    SplitIsUnique(pieces, '\n');
    assert Init(pieces) == [IMAGES_START];
    assert Join(pieces, '\n') == IMAGES_START + "\n" + last;
    UntaggedLine(IMAGES_START);
    UntaggedLine(last);
  }

  lemma UntaggedLine(line: string)
    requires line != "" && line[0] != '[' && !IsSpace(line[0]) && !IsSpace(Last(line))
    ensures Clean(line) == line
  {
    StripKeeps(line);
    Untagged(line, TAGS);
  }

  lemma {:induction false} Untagged(line: string, tags: seq<string>)
    requires line != "" && line[0] != '[' && forall i :: 0 <= i < |tags| ==> IsTag(tags[i])
    ensures WithoutTags(line, tags) == line
  {
    if tags != [] {
      assert IsTag(tags[0]);
      assert (tags[0] + " ")[0] == '[';
      Untagged(line, tags[1..]);
    }
  }
}
