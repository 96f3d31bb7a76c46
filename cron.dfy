/**
 * The crontab editor entry point (`do_cronedit` in src/main.rs): when invoked by `crontab -e`
 * with CRONTAB_MODE set, the program rewrites the crontab so that the hourly prune entry
 * `0 * * * * <exe> eject --expired` is present exactly once (install) or absent (uninstall).
 */
module Cron {
  import opened Outcomes
  import opened Text

  datatype Mode = Install | Uninstall

  /** CRONTAB_MODE: only the exact words "install" and "uninstall" select an edit. */
  function ModeOf(env: Option<string>): Option<Mode> {
    if env == Some("install") then Some(Install)
    else if env == Some("uninstall") then Some(Uninstall)
    else None
  }

  /** The command the managed entry runs. */
  function CronCommand(exe: string): string {
    exe + " eject --expired"
  }

  /** The entry appended on install: on the hour, every hour. */
  function CronEntry(cmd: string): string {
    "0 * * * * " + cmd
  }

  /** A crontab line is the managed one when, trimmed, it ends with the command. */
  predicate IsManaged(line: string, cmd: string) {
    EndsWith(Trim(line), cmd)
  }

  predicate AnyManaged(lines: seq<string>, cmd: string) {
    exists i | 0 <= i < |lines| :: IsManaged(lines[i], cmd)
  }

  /** The lines that are not the managed entry, in their order. */
  function Unmanaged(lines: seq<string>, cmd: string): seq<string> {
    if lines == [] then []
    else
      var last := lines[|lines| - 1];
      Unmanaged(lines[..|lines| - 1], cmd) + (if IsManaged(last, cmd) then [] else [last])
  }

  function CountManaged(lines: seq<string>, cmd: string): nat {
    if lines == [] then 0
    else CountManaged(lines[..|lines| - 1], cmd) + (if IsManaged(lines[|lines| - 1], cmd) then 1 else 0)
  }

  /** The crontab lines written back for a mode. */
  function Rewrite(lines: seq<string>, mode: Mode, cmd: string): seq<string> {
    match mode
    case Install => if AnyManaged(lines, cmd) then lines else lines + [CronEntry(cmd)]
    case Uninstall => Unmanaged(lines, cmd)
  }

  /**
   * `do_cronedit`: with no recognised mode, returns false and writes nothing; otherwise reads
   * the crontab, copies its lines in order (dropping managed ones on uninstall, noting whether
   * one was seen), appends the entry on install if none was seen, writes the text back and
   * returns true. `crontab` is the file's contents, None when reading it fails.
   */
  method CronEdit(env: Option<string>, exe: string, crontab: Option<string>)
    returns (r: Result<bool>, written: Option<string>)
    ensures ModeOf(env).None? ==> r == Ok(false) && written.None?
    ensures ModeOf(env).Some? && crontab.None? ==> r == Err(Io) && written.None?
    ensures ModeOf(env).Some? && crontab.Some? ==>
      r == Ok(true) &&
      written == Some(Render(Rewrite(Lines(crontab.value), ModeOf(env).value, CronCommand(exe))))
  {
    var add: bool;
    match ModeOf(env) {
      case None => return Ok(false), None;
      case Some(m) => add := m == Install;
    }
    if crontab.None? {
      return Err(Io), None;
    }
    var cmd := CronCommand(exe);
    var lines := Lines(crontab.value);
    var cron, found := CopyLines(lines, add, cmd);
    if add && !found {
      RenderSnoc(lines, CronEntry(cmd));
      cron := cron + CronEntry(cmd) + "\n";
    }
    return Ok(true), Some(cron);
  }

  /** The loop of `do_cronedit`: writes each line back, skipping managed ones unless adding. */
  method CopyLines(lines: seq<string>, add: bool, cmd: string) returns (cron: string, found: bool)
    ensures found == AnyManaged(lines, cmd)
    ensures cron == Render(if add then lines else Unmanaged(lines, cmd))
  {
    cron := "";
    found := false;
    ghost var kept: seq<string> := [];
    var i := 0;
    while i < |lines|
      invariant 0 <= i <= |lines|
      invariant found == (CountManaged(lines[..i], cmd) > 0)
      invariant kept == if add then lines[..i] else Unmanaged(lines[..i], cmd)
      invariant cron == Render(kept)
    {
      var line := lines[i];
      assert lines[..i + 1] == lines[..i] + [line];
      CopyStep(lines[..i], line, add, cmd, kept, cron, found);
      var managed := IsManaged(line, cmd);
      if managed {
        found := true;
      }
      if add || !managed {
        kept := kept + [line];
        cron := cron + line + "\n";
      }
      i := i + 1;
    }
    assert lines[..i] == lines;
    CountManagedPositive(lines, cmd);
  }

  /** One step of the copy loop keeps the copied lines, their text and the managed flag in step. */
  lemma CopyStep(done: seq<string>, line: string, add: bool, cmd: string, kept: seq<string>, cron: string, found: bool)
    requires kept == if add then done else Unmanaged(done, cmd)
    requires cron == Render(kept)
    requires found == (CountManaged(done, cmd) > 0)
    ensures var copied := add || !IsManaged(line, cmd);
      && (if copied then kept + [line] else kept) == (if add then done + [line] else Unmanaged(done + [line], cmd))
      && Render(if copied then kept + [line] else kept) == (if copied then cron + line + "\n" else cron)
      && (found || IsManaged(line, cmd)) == (CountManaged(done + [line], cmd) > 0)
  {
    UnmanagedSnoc(done, line, cmd);
    RenderSnoc(kept, line);
    assert (done + [line])[..|done|] == done;
  }

  lemma UnmanagedSnoc(lines: seq<string>, line: string, cmd: string)
    ensures Unmanaged(lines + [line], cmd) == Unmanaged(lines, cmd) + (if IsManaged(line, cmd) then [] else [line])
  {
    assert (lines + [line])[..|lines|] == lines;
  }

  lemma AnyManagedSnoc(lines: seq<string>, line: string, cmd: string)
    ensures AnyManaged(lines + [line], cmd) == (AnyManaged(lines, cmd) || IsManaged(line, cmd))
  {
    var s := lines + [line];
    assert forall i | 0 <= i < |lines| :: s[i] == lines[i];
    assert s[|lines|] == line;
  }

  // ---------------------------------------------------------------------------
  // Properties of the rewrite
  // ---------------------------------------------------------------------------

  /** The appended entry is itself recognised as the managed line. */
  lemma EntryIsManaged(exe: string)
    ensures IsManaged(CronEntry(CronCommand(exe)), CronCommand(exe))
  {
    var e := CronEntry(CronCommand(exe));
    assert e[0] == '0' && e[|e| - 1] == 'd';
    TrimUnchanged(e);
  }

  /** Uninstall keeps every other line, in order: it distributes over concatenation. */
  lemma {:induction false} UnmanagedAppend(a: seq<string>, b: seq<string>, cmd: string)
    ensures Unmanaged(a + b, cmd) == Unmanaged(a, cmd) + Unmanaged(b, cmd)
    decreases |b|
  {
    if b == [] {
      assert a + b == a;
    } else {
      var b' := b[..|b| - 1];
      assert (a + b)[..|a + b| - 1] == a + b';
      assert (a + b)[|a + b| - 1] == b[|b| - 1];
      UnmanagedAppend(a, b', cmd);
    }
  }

  /**
   * Uninstall drops exactly the managed lines: none is left, every other line is left, and
   * the lengths add up.
   */
  lemma {:induction false} UnmanagedExact(lines: seq<string>, cmd: string)
    ensures forall l | l in Unmanaged(lines, cmd) :: l in lines && !IsManaged(l, cmd)
    ensures forall l | l in lines && !IsManaged(l, cmd) :: l in Unmanaged(lines, cmd)
    ensures |Unmanaged(lines, cmd)| + CountManaged(lines, cmd) == |lines|
    decreases |lines|
  {
    if lines != [] {
      var init := lines[..|lines| - 1];
      assert lines == init + [lines[|lines| - 1]];
      UnmanagedExact(init, cmd);
    }
  }

  /** Some line is managed exactly when the count of managed lines is positive. */
  lemma {:induction false} CountManagedPositive(lines: seq<string>, cmd: string)
    ensures CountManaged(lines, cmd) > 0 <==> AnyManaged(lines, cmd)
    decreases |lines|
  {
    if lines != [] {
      var init := lines[..|lines| - 1];
      assert lines == init + [lines[|lines| - 1]];
      CountManagedPositive(init, cmd);
      AnyManagedSnoc(init, lines[|lines| - 1], cmd);
    }
  }

  /** Uninstall changes nothing exactly when no line is managed. */
  lemma UninstallUnchangedIff(lines: seq<string>, cmd: string)
    ensures Unmanaged(lines, cmd) == lines <==> !AnyManaged(lines, cmd)
  {
    UnmanagedExact(lines, cmd);
    CountManagedPositive(lines, cmd);
    if !AnyManaged(lines, cmd) {
      UnmanagedOfUnmanaged(lines, cmd);
    }
  }

  lemma {:induction false} UnmanagedOfUnmanaged(lines: seq<string>, cmd: string)
    requires !AnyManaged(lines, cmd)
    ensures Unmanaged(lines, cmd) == lines
    decreases |lines|
  {
    if lines != [] {
      var init := lines[..|lines| - 1];
      assert lines == init + [lines[|lines| - 1]];
      AnyManagedSnoc(init, lines[|lines| - 1], cmd);
      UnmanagedOfUnmanaged(init, cmd);
    }
  }

  /** Install keeps every line in order and leaves exactly one managed line when there was none. */
  lemma InstallAddsOneEntry(lines: seq<string>, exe: string)
    ensures var cmd := CronCommand(exe);
      var out := Rewrite(lines, Install, cmd);
      out[..|lines|] == lines &&
      (AnyManaged(lines, cmd) ==> out == lines) &&
      (!AnyManaged(lines, cmd) ==> CountManaged(out, cmd) == 1)
  {
    var cmd := CronCommand(exe);
    if !AnyManaged(lines, cmd) {
      var out := lines + [CronEntry(cmd)];
      assert out[..|out| - 1] == lines;
      CountManagedPositive(lines, cmd);
      EntryIsManaged(exe);
    }
  }

  /** A second install changes nothing. */
  lemma InstallIdempotent(lines: seq<string>, exe: string)
    ensures var cmd := CronCommand(exe);
      Rewrite(Rewrite(lines, Install, cmd), Install, cmd) == Rewrite(lines, Install, cmd)
  {
    var cmd := CronCommand(exe);
    if !AnyManaged(lines, cmd) {
      EntryIsManaged(exe);
      AnyManagedSnoc(lines, CronEntry(cmd), cmd);
    }
  }

  /** Uninstalling after an install leaves what uninstalling alone leaves. */
  lemma UninstallAfterInstall(lines: seq<string>, exe: string)
    ensures var cmd := CronCommand(exe);
      Unmanaged(Rewrite(lines, Install, cmd), cmd) == Unmanaged(lines, cmd)
  {
    var cmd := CronCommand(exe);
    if !AnyManaged(lines, cmd) {
      EntryIsManaged(exe);
      UnmanagedAppend(lines, [CronEntry(cmd)], cmd);
      assert [CronEntry(cmd)][..0] == [];
    }
  }

  /** Dropping a trailing '\r' does not change whether a line is the managed one. */
  lemma ManagedIgnoresCR(line: string, cmd: string)
    ensures IsManaged(StripCR(line), cmd) == IsManaged(line, cmd)
  {
    if line != [] && line[|line| - 1] == '\r' {
      var init := line[..|line| - 1];
      assert line == init + ['\r'];
      TrimDropsTrailingWhitespace(init, '\r');
    }
  }

  /** Reading back written lines with `lines()` finds a managed line exactly where one was written. */
  lemma {:induction false} AnyManagedReadBack(lines: seq<string>, cmd: string)
    requires forall i | 0 <= i < |lines| :: '\n' !in lines[i]
    ensures AnyManaged(Lines(Render(lines)), cmd) == AnyManaged(lines, cmd)
  {
    LinesOfRender(lines);
    var back := Lines(Render(lines));
    if AnyManaged(lines, cmd) {
      var i :| 0 <= i < |lines| && IsManaged(lines[i], cmd);
      ManagedIgnoresCR(lines[i], cmd);
      assert IsManaged(back[i], cmd);
    }
    if AnyManaged(back, cmd) {
      var i :| 0 <= i < |back| && IsManaged(back[i], cmd);
      ManagedIgnoresCR(lines[i], cmd);
      assert IsManaged(lines[i], cmd);
    }
  }

  /**
   * A second install over the text the first one wrote appends nothing: the lines it writes
   * are the lines it read. This needs an executable path without '\n'; with one, the entry
   * written is read back as two lines, neither of which is recognised.
   */
  lemma SecondInstallAppendsNothing(crontab: string, exe: string)
    requires '\n' !in exe
    ensures var cmd := CronCommand(exe);
      var once := Render(Rewrite(Lines(crontab), Install, cmd));
      AnyManaged(Lines(once), cmd) && Rewrite(Lines(once), Install, cmd) == Lines(once)
  {
    var cmd := CronCommand(exe);
    var out := Rewrite(Lines(crontab), Install, cmd);
    EntryNoNewline(exe);
    InstallIdempotent(Lines(crontab), exe);
    AnyManagedReadBack(out, cmd);
  }

  lemma EntryNoNewline(exe: string)
    requires '\n' !in exe
    ensures '\n' !in CronEntry(CronCommand(exe))
  {
  }

  /**
   * An executable path with a '\n' in it breaks the recognition: installing into an empty
   * crontab writes the entry as two lines, neither of which ends with the command. A second
   * install appends the entry again, and an uninstall removes nothing.
   */
  lemma NewlineInPathNotRecognised(before: string, after: string)
    requires '\n' !in before && '\n' !in after
    ensures var cmd := CronCommand(before + "\n" + after);
      var once := Render(Rewrite(Lines(""), Install, cmd));
      && Lines(once) == [StripCR("0 * * * * " + before), after + " eject --expired"]
      && !AnyManaged(Lines(once), cmd)
      && Rewrite(Lines(once), Install, cmd) == Lines(once) + [CronEntry(cmd)]
      && Rewrite(Lines(once), Uninstall, cmd) == Lines(once)
  {
    var cmd := CronCommand(before + "\n" + after);
    var first, second := "0 * * * * " + before, after + " eject --expired";
    EntrySplits(before, after);
    var lines := EntryReadBack(first, second);
    ShorterPair(lines, cmd);
  }

  /** Installing into an empty crontab writes the one entry, split at the path's '\n'. */
  lemma EntrySplits(before: string, after: string)
    ensures var cmd := CronCommand(before + "\n" + after);
      Rewrite(Lines(""), Install, cmd) == [("0 * * * * " + before) + "\n" + (after + " eject --expired")]
  {
    var cmd := CronCommand(before + "\n" + after);
    assert Lines("") == [];
    assert CronEntry(cmd) == ("0 * * * * " + before) + "\n" + (after + " eject --expired");
  }

  /** One entry holding a '\n' is read back as the two lines around it. */
  lemma EntryReadBack(first: string, second: string) returns (lines: seq<string>)
    requires '\n' !in first && '\n' !in second
    requires second != [] && second[|second| - 1] != '\r'
    ensures lines == [StripCR(first), second] == Lines(Render([first + "\n" + second]))
  {
    assert [first, second][..1] == [first];
    assert Render([first + "\n" + second]) == Render([first, second]);
    LinesOfRender([first, second]);
    lines := [StripCR(first), second];
  }

  /** Two lines shorter than the command are not managed, so uninstall keeps both. */
  lemma ShorterPair(lines: seq<string>, cmd: string)
    requires |lines| == 2 && |lines[0]| < |cmd| && |lines[1]| < |cmd|
    ensures !AnyManaged(lines, cmd) && Unmanaged(lines, cmd) == lines
  {
    ShorterNotManaged(lines[0], cmd);
    ShorterNotManaged(lines[1], cmd);
    UnmanagedOfUnmanaged(lines, cmd);
  }

  /** A line shorter than the command cannot end with it once trimmed. */
  lemma ShorterNotManaged(line: string, cmd: string)
    requires |line| < |cmd|
    ensures !IsManaged(line, cmd)
  {
  }

  /**
   * When no crontab line ends in '\r' and the executable path has no '\n', installing twice
   * writes the same text as installing once, and uninstalling after an install writes what
   * uninstalling alone writes.
   */
  lemma InstallTextFixpoint(crontab: string, exe: string)
    requires '\n' !in exe
    requires forall i | 0 <= i < |Lines(crontab)| ::
      Lines(crontab)[i] == [] || Lines(crontab)[i][|Lines(crontab)[i]| - 1] != '\r'
    ensures var cmd := CronCommand(exe);
      var once := Render(Rewrite(Lines(crontab), Install, cmd));
      Render(Rewrite(Lines(once), Install, cmd)) == once &&
      Render(Rewrite(Lines(once), Uninstall, cmd)) == Render(Rewrite(Lines(crontab), Uninstall, cmd))
  {
    var cmd := CronCommand(exe);
    var lines := Lines(crontab);
    var out := Rewrite(lines, Install, cmd);
    var e := CronEntry(cmd);
    EntryNoNewline(exe);
    assert e[|e| - 1] == 'd';
    forall i | 0 <= i < |out| ensures PlainLine(out[i]) {
      if i < |lines| {
        assert out[i] == lines[i];
      } else {
        assert out[i] == e;
      }
    }
    RenderRoundTrip(out);
    InstallIdempotent(lines, exe);
    UninstallAfterInstall(lines, exe);
  }
}
