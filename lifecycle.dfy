/**
 * The image lifecycle of the `new` and `import` commands (src/main.rs): choosing the password
 * and the volume name, creating, mounting and securing the image, checking the archive's
 * password before extracting it, and keeping or deleting the image file at the end. Every
 * outside call is an `Action` of the run's trace; what those calls return is given by `Host`.
 */
module Lifecycle {
  import opened Outcomes
  import opened Text
  import opened Effects
  import opened Dmg
  import opened Zip

  const DefaultVolumeName: string := "EncryptedScratchpad"
  const NotAFile: string := "source archive is not a file"
  const InvalidPassword: string := "invalid password"

  /** The options shared by `new` and `import`. */
  datatype ImageOptions = ImageOptions(days: nat, volumeName: Option<string>, keepDmg: bool, password: Option<string>)

  /**
   * What the world answers: which effects fail, the text typed at the password prompt, the two
   * random UUIDs (the generated password and the image id), the temporary directory, the clock,
   * the captured outputs of `hdiutil attach` and `7z t`, `fs::canonicalize`, and
   * whether a path is a regular file.
   */
  datatype Host = Host(
    fails: Action -> bool,
    reply: string,
    generated: string,
    imageId: string,
    tempDir: string,
    now: nat,
    attachStdout: string,
    testStdout: string,
    testStderr: string,
    canonical: string -> Option<string>,
    isFile: string -> bool)

  /** `PrepareResult`: the password used, the image file and the mount point. */
  datatype Prepared = Prepared(password: string, image: string, mount: string)

  // ---------------------------------------------------------------------------
  // Password and volume name
  // ---------------------------------------------------------------------------

  /** The user is asked for a password unless one was given or it can be thrown away. */
  predicate Prompts(opts: ImageOptions, hasSource: bool) {
    opts.password.None? && (opts.keepDmg || hasSource)
  }

  /**
   * The password: the one given; else a random one when the image is deleted and nothing is
   * imported (nobody needs to know it); else the one typed at the prompt.
   */
  function Password(opts: ImageOptions, hasSource: bool, generated: string, reply: string): (p: string)
    ensures opts.password.Some? ==> p == opts.password.value
    ensures opts.password.None? && Prompts(opts, hasSource) ==> p == reply
    ensures opts.password.None? && !Prompts(opts, hasSource) ==> p == generated
  {
    match opts.password
      case Some(p) => p
      case None => if !opts.keepDmg && !hasSource then generated else reply
  }

  /** The text before the last '.', when there is one. */
  function BeforeLastDot(name: string): Option<string> {
    if name == [] then None
    else if name[|name| - 1] == '.' then Some(name[..|name| - 1])
    else BeforeLastDot(name[..|name| - 1])
  }

  /** `Path::file_stem` of a file name: all before the last '.', unless that is nothing. */
  function Stem(name: string): string {
    if name == ".." then name
    else match BeforeLastDot(name)
      case Some(before) => if before == [] then name else before
      case None => name
  }

  function FileStem(path: string): Option<string> {
    var name := FileName(path);
    if name == [] then None else Some(Stem(name))
  }

  /** The volume name: the one given, else the source archive's stem, else "EncryptedScratchpad". */
  function VolumeName(opts: ImageOptions, source: Option<string>): string {
    match opts.volumeName
      case Some(name) => name
      case None =>
        if source.Some? && FileStem(source.value).Some? then FileStem(source.value).value
        else DefaultVolumeName
  }

  /** `temp_dir()/encrypted-<uuid>-<volume name>.dmg`. */
  function ImagePath(host: Host, volume: string): string {
    JoinPath(host.tempDir, ImageFileName(host.imageId, volume))
  }

  function ImageFileName(id: string, volume: string): string {
    "encrypted-" + id + "-" + volume + ".dmg"
  }

  lemma {:induction false} BeforeLastDotOf(base: string, ext: string)
    requires '.' !in ext
    ensures BeforeLastDot(base + "." + ext) == Some(base)
    decreases |ext|
  {
    if ext == [] {
      assert base + "." + ext == base + ".";
      assert (base + ".")[..|base|] == base;
    } else {
      var init := ext[..|ext| - 1];
      assert (base + "." + ext)[..|base + "." + ext| - 1] == base + "." + init;
      BeforeLastDotOf(base, init);
    }
  }

  /** An archive `dir/base.ext` (`ext` without a dot) is imported into a volume named `base`. */
  lemma ArchiveVolumeName(opts: ImageOptions, dir: string, base: string, ext: string)
    requires opts.volumeName.None?
    requires base != [] && ext != []
    requires '/' !in base && '/' !in ext && '.' !in ext
    ensures VolumeName(opts, Some(JoinPath(dir, base + "." + ext))) == base
  {
    var name := base + "." + ext;
    assert '/' !in name by {
      forall i | 0 <= i < |name| ensures name[i] != '/' {
        if i < |base| {
          assert name[i] == base[i];
        } else if i > |base| {
          assert name[i] == ext[i - |base| - 1];
        }
      }
    }
    FileNameOfJoin(dir, name);
    BeforeLastDotOf(base, ext);
    assert name[|name| - 1] == ext[|ext| - 1];
  }

  /** Without a name or a source archive the volume is "EncryptedScratchpad". */
  lemma DefaultVolume(opts: ImageOptions)
    requires opts.volumeName.None?
    ensures VolumeName(opts, None) == DefaultVolumeName
  {
  }

  /** The image lies directly in the temporary directory when the volume name has no '/'. */
  lemma ImageInTempDir(host: Host, volume: string)
    requires '/' !in host.imageId && '/' !in volume
    ensures FileName(ImagePath(host, volume)) == ImageFileName(host.imageId, volume)
  {
    var name := ImageFileName(host.imageId, volume);
    assert name == ("encrypted-" + host.imageId) + ("-" + volume + ".dmg");
    assert '/' !in name by {
      forall i | 0 <= i < |name| ensures name[i] != '/' {
        var head := "encrypted-" + host.imageId + "-";
        assert name == head + volume + ".dmg";
        if i < |"encrypted-"| {
        } else if i < |"encrypted-"| + |host.imageId| {
          assert name[i] == host.imageId[i - |"encrypted-"|];
        } else if i < |head| {
        } else if i < |head| + |volume| {
          assert name[i] == volume[i - |head|];
        }
      }
    }
    FileNameOfJoin(host.tempDir, name);
  }

  // ---------------------------------------------------------------------------
  // prepare_dmg and finalize_dmg
  // ---------------------------------------------------------------------------

  /**
   * The steps of `prepare_dmg` before the volume is secured: the prompt when there is one,
   * creating the image with its volume name, size and password, and attaching it.
   */
  function PlannedSteps(opts: ImageOptions, size: nat, source: Option<string>, host: Host): seq<Action> {
    var password := Password(opts, source.Some?, host.generated, host.reply);
    var volume := VolumeName(opts, source);
    (if Prompts(opts, source.Some?) then [Prompt] else [])
      + [CreateImage(ImagePath(host, volume), volume, size, password), AttachImage(ImagePath(host, volume), password)]
  }

  /**
   * `prepare_dmg`: chooses the password (prompting only when `Prompts` says so), creates the
   * image, mounts it and secures the volume; the first failing step ends the run with its
   * error. A successful run returns the password, the image path and the mount point.
   */
  function PrepareDmg(opts: ImageOptions, size: nat, source: Option<string>, host: Host): Run<Prepared> {
    var hasSource := source.Some?;
    var password := Password(opts, hasSource, host.generated, host.reply);
    var volume := VolumeName(opts, source);
    var image := ImagePath(host, volume);
    var prompt := if Prompts(opts, hasSource) then [Prompt] else [];
    var create := CreateImage(image, volume, size, password);
    if Prompts(opts, hasSource) && host.fails(Prompt) then Run(prompt, Err(Io))
    else if host.fails(create) then Run(prompt + [create], Err(Io))
    else
      var mounted := MountDmg(image, password, host.attachStdout, host.fails);
      var front := prompt + [create] + mounted.trace;
      if mounted.result.Err? then Run(front, Err(mounted.result.error))
      else
        var secured := SecureVolume(mounted.result.value, opts.days, host.now, host.fails);
        Run(front + secured.trace,
            if secured.result.Err? then Err(secured.result.error)
            else Ok(Prepared(password, image, mounted.result.value)))
  }

  /** An effect `prepare_dmg` can have. */
  predicate PrepareEffect(a: Action) {
    a.Prompt? || a.CreateImage? || a.AttachImage? || VolumeEffect(a)
  }

  /** The effects of securing the mount point the attach output names, when it names one. */
  function SecuredSteps(opts: ImageOptions, host: Host): seq<Action> {
    match AttachedMount(host.attachStdout)
      case Ok(mount) => SecureVolume(mount, opts.days, host.now, host.fails).trace
      case Err(_) => []
  }

  /** `trace` is a prefix of the plan, or the whole plan followed by the securing steps. */
  predicate FollowsPlan(trace: seq<Action>, planned: seq<Action>, secured: seq<Action>) {
    && (|trace| <= |planned| ==> trace == planned[..|trace|])
    && (|trace| > |planned| ==> trace == planned + secured)
  }

  lemma FollowsPlanAt(trace: seq<Action>, planned: seq<Action>, secured: seq<Action>, i: int)
    requires FollowsPlan(trace, planned, secured) && 0 <= i < |trace|
    ensures i < |planned| ==> trace[i] == planned[i]
    ensures i >= |planned| ==> trace[i] == secured[i - |planned|]
  {
    if |trace| <= |planned| {
      assert trace[i] == planned[..|trace|][i];
    }
  }


  /** A `prepare_dmg` run that stops within its plan has run a prefix of it. */
  lemma PrepareStopsWithinPlan(opts: ImageOptions, size: nat, source: Option<string>, host: Host)
    ensures var run := PrepareDmg(opts, size, source, host);
      var planned := PlannedSteps(opts, size, source, host);
      |run.trace| <= |planned| ==> run.trace == planned[..|run.trace|]
  {
  }

  /** A `prepare_dmg` run that gets past its plan secures the mount point the attach output names. */
  lemma PrepareSecuresMount(opts: ImageOptions, size: nat, source: Option<string>, host: Host)
    ensures var run := PrepareDmg(opts, size, source, host);
      var planned := PlannedSteps(opts, size, source, host);
      |run.trace| > |planned| ==> run.trace == planned + SecuredSteps(opts, host) && AttachedMount(host.attachStdout).Ok?
  {
  }

  /** A `prepare_dmg` run has at least one effect, and a successful one completes its plan. */
  lemma PrepareCompletesPlan(opts: ImageOptions, size: nat, source: Option<string>, host: Host)
    ensures var run := PrepareDmg(opts, size, source, host);
      var planned := PlannedSteps(opts, size, source, host);
      run.trace != [] && (run.result.Ok? ==> |run.trace| > |planned|)
  {
  }
  /**
   * Convenience for the lemmas below: the three facts above in one lemma. Every `prepare_dmg`
   * run follows the plan, and secures only a mount point it read.
   */
  lemma PrepareFront(opts: ImageOptions, size: nat, source: Option<string>, host: Host)
    ensures var run := PrepareDmg(opts, size, source, host);
      var planned := PlannedSteps(opts, size, source, host);
      && run.trace != []
      && FollowsPlan(run.trace, planned, SecuredSteps(opts, host))
      && (|run.trace| > |planned| ==> AttachedMount(host.attachStdout).Ok?)
      && (run.result.Ok? ==> |run.trace| > |planned|)
  {
    PrepareStopsWithinPlan(opts, size, source, host);
    PrepareSecuresMount(opts, size, source, host);
    PrepareCompletesPlan(opts, size, source, host);
  }

  /**
   * `prepare_dmg` runs its plan in order: the prompt when `Prompts` holds, creating the image,
   * attaching it, then securing the mount point read from the attach output, whose first two
   * effects write `.metadata_never_index` and the expiry marker. A successful run returns the
   * chosen password, the image path and that mount point.
   */
  lemma PrepareFollowsPlan(opts: ImageOptions, size: nat, source: Option<string>, host: Host)
    ensures var run := PrepareDmg(opts, size, source, host);
      var planned := PlannedSteps(opts, size, source, host);
      var mount := AttachedMount(host.attachStdout);
      && (|run.trace| <= |planned| ==> run.trace == planned[..|run.trace|])
      && (|run.trace| > |planned| ==>
            run.trace[..|planned|] == planned && mount.Ok?
            && run.trace[|planned|] == WriteFile(JoinPath(mount.value, NeverIndexFile), ""))
      && (|run.trace| > |planned| + 1 ==>
            run.trace[|planned| + 1]
            == WriteFile(JoinPath(mount.value, MarkerFile), Decimal(ExpiryAfter(host.now, opts.days))))
      && (run.result.Ok? ==>
            |run.trace| > |planned| + 1
            && run.result.value == Prepared(Password(opts, source.Some?, host.generated, host.reply),
                                            ImagePath(host, VolumeName(opts, source)), mount.value))
  {
    var run := PrepareDmg(opts, size, source, host);
    var planned := PlannedSteps(opts, size, source, host);
    PrepareFront(opts, size, source, host);
    if |run.trace| > |planned| {
      var mount := AttachedMount(host.attachStdout).value;
      SecureVolumeSteps(mount, opts.days, host.now, host.fails);
      PlanThenSecured(run.trace, planned, SecuredSteps(opts, host));
    }
  }

  lemma PlanThenSecured(trace: seq<Action>, planned: seq<Action>, secured: seq<Action>)
    requires |trace| > |planned| && trace == planned + secured
    ensures trace[..|planned|] == planned
    ensures trace[|planned|] == secured[0]
    ensures |trace| > |planned| + 1 ==> trace[|planned| + 1] == secured[1]
  {
  }

  /** A run of `prepare_dmg` stops at its first failure, and reports an I/O error only for one. */
  lemma PrepareStopsAtFirstFailure(opts: ImageOptions, size: nat, source: Option<string>, host: Host)
    ensures var run := PrepareDmg(opts, size, source, host);
      && StopsAtFirstFailure(run.trace, host.fails)
      && (run.result.Ok? ==> Succeeded(run.trace, host.fails))
      && (run.result.Err? ==>
            || EndedByFailure(run.trace, host.fails)
            || (run.trace != [] && run.trace[|run.trace| - 1].AttachImage?
                && AttachedMount(host.attachStdout).Err?
                && run.result.error == AttachedMount(host.attachStdout).error))
      && (run.result.Err? && run.result.error == Io ==> EndedByFailure(run.trace, host.fails))
  {
    var hasSource := source.Some?;
    var password := Password(opts, hasSource, host.generated, host.reply);
    var volume := VolumeName(opts, source);
    var image := ImagePath(host, volume);
    var prompt := if Prompts(opts, hasSource) then [Prompt] else [];
    var create := CreateImage(image, volume, size, password);
    var attach := AttachImage(image, password);
    if !(Prompts(opts, hasSource) && host.fails(Prompt)) {
      SucceededSnoc([], Prompt, host.fails);
      assert Succeeded(prompt, host.fails);
      SucceededSnoc(prompt, create, host.fails);
      if !host.fails(create) {
        SucceededSnoc(prompt + [create], attach, host.fails);
        if !host.fails(attach) && AttachedMount(host.attachStdout).Ok? {
          var secured := SecureVolume(AttachedMount(host.attachStdout).value, opts.days, host.now, host.fails);
          SecureVolumeStops(AttachedMount(host.attachStdout).value, opts.days, host.now, host.fails);
          ContinueAfter(prompt + [create, attach], secured.trace, host.fails);
          assert prompt + [create] + [attach] == prompt + [create, attach];
        }
      }
    } else {
      SucceededSnoc([], Prompt, host.fails);
    }
  }

  /** Each effect of a run that follows the plan is planned or secures the volume. */
  lemma EffectsOfPlan(trace: seq<Action>, planned: seq<Action>, secured: seq<Action>)
    requires FollowsPlan(trace, planned, secured)
    requires forall i | 0 <= i < |planned| :: PrepareEffect(planned[i])
    requires forall i | 0 <= i < |secured| :: VolumeEffect(secured[i])
    ensures forall i | 0 <= i < |trace| :: (trace[i] in planned || VolumeEffect(trace[i])) && PrepareEffect(trace[i])
  {
    forall i | 0 <= i < |trace| ensures (trace[i] in planned || VolumeEffect(trace[i])) && PrepareEffect(trace[i]) {
      FollowsPlanAt(trace, planned, secured, i);
    }
  }

  /**
   * Every effect of `prepare_dmg` is one of its planned steps (the prompt, creating the image
   * with the planned name, size and password, attaching it) or an effect on the volume.
   */
  lemma PrepareEffects(opts: ImageOptions, size: nat, source: Option<string>, host: Host)
    ensures var run := PrepareDmg(opts, size, source, host);
      forall i | 0 <= i < |run.trace| ::
        (run.trace[i] in PlannedSteps(opts, size, source, host) || VolumeEffect(run.trace[i]))
        && PrepareEffect(run.trace[i])
  {
    PrepareFront(opts, size, source, host);
    if AttachedMount(host.attachStdout).Ok? {
      SecureVolumeSteps(AttachedMount(host.attachStdout).value, opts.days, host.now, host.fails);
    }
    EffectsOfPlan(PrepareDmg(opts, size, source, host).trace, PlannedSteps(opts, size, source, host),
                  SecuredSteps(opts, host));
  }

  /** In a run that follows the plan, no effect after the first is the prompt. */
  lemma PromptOnlyFirst(trace: seq<Action>, planned: seq<Action>, secured: seq<Action>)
    requires FollowsPlan(trace, planned, secured)
    requires forall i | 0 < i < |planned| :: planned[i] != Prompt
    requires forall i | 0 <= i < |secured| :: VolumeEffect(secured[i])
    ensures forall i | 0 < i < |trace| :: trace[i] != Prompt
  {
    forall i | 0 < i < |trace| ensures trace[i] != Prompt {
      FollowsPlanAt(trace, planned, secured, i);
    }
  }

  /** The password prompt appears exactly when `Prompts` holds, and only as the first effect. */
  lemma PromptsIff(opts: ImageOptions, size: nat, source: Option<string>, host: Host)
    ensures var run := PrepareDmg(opts, size, source, host);
      && (Prompt in run.trace <==> Prompts(opts, source.Some?))
      && (forall i | 0 < i < |run.trace| :: run.trace[i] != Prompt)
  {
    var run := PrepareDmg(opts, size, source, host);
    var planned := PlannedSteps(opts, size, source, host);
    PrepareFront(opts, size, source, host);
    if AttachedMount(host.attachStdout).Ok? {
      SecureVolumeSteps(AttachedMount(host.attachStdout).value, opts.days, host.now, host.fails);
    }
    PromptOnlyFirst(run.trace, planned, SecuredSteps(opts, host));
    FollowsPlanAt(run.trace, planned, SecuredSteps(opts, host), 0);
  }

  /** `finalize_dmg`: with `--keep` the image file is left in place, otherwise it is removed. */
  function FinalizeDmg(opts: ImageOptions, prepared: Prepared, fails: Action -> bool): (run: Run<()>)
    ensures opts.keepDmg <==> run.trace == []
    ensures !opts.keepDmg ==> run.trace == [RemoveImage(prepared.image)]
    ensures run.result.Err? <==> EndedByFailure(run.trace, fails)
    ensures run.result.Err? ==> run.result.error == Io
    ensures run.result.Ok? ==> Succeeded(run.trace, fails)
  {
    if opts.keepDmg then Run([], Ok(()))
    else
      var remove := RemoveImage(prepared.image);
      Run([remove], if fails(remove) then Err(Io) else Ok(()))
  }

  // ---------------------------------------------------------------------------
  // new_command
  // ---------------------------------------------------------------------------

  /** `new_command`: prepares an image with no source archive, then finalizes it. */
  function NewCommand(opts: ImageOptions, size: nat, host: Host): Run<()> {
    var prepared := PrepareDmg(opts, size, None, host);
    if prepared.result.Err? then Run(prepared.trace, Err(prepared.result.error))
    else
      var fin := FinalizeDmg(opts, prepared.result.value, host.fails);
      Run(prepared.trace + fin.trace, fin.result)
  }

  /** A `new` run stops at its first failure, and reports an I/O error only for one. */
  lemma NewCommandStops(opts: ImageOptions, size: nat, host: Host)
    ensures var run := NewCommand(opts, size, host);
      && StopsAtFirstFailure(run.trace, host.fails)
      && (run.result.Err? && run.result.error == Io ==> EndedByFailure(run.trace, host.fails))
  {
    var prepared := PrepareDmg(opts, size, None, host);
    PrepareStopsAtFirstFailure(opts, size, None, host);
    if prepared.result.Ok? {
      ContinueAfter(prepared.trace, FinalizeDmg(opts, prepared.result.value, host.fails).trace, host.fails);
    }
  }

  /** A `new` run prompts only with `--keep` and no `--password`: otherwise the password is random. */
  lemma NewCommandPrompts(opts: ImageOptions, size: nat, host: Host)
    ensures Prompt in NewCommand(opts, size, host).trace <==> opts.password.None? && opts.keepDmg
  {
    PromptsIff(opts, size, None, host);
  }

  /**
   * A `new` run that succeeds has created the image with the chosen volume name, size and
   * password, and removed the image, as its very last effect, exactly when `--keep` was not
   * given.
   */
  lemma NewCommandSucceeds(opts: ImageOptions, size: nat, host: Host)
    ensures var run := NewCommand(opts, size, host);
      var volume := VolumeName(opts, None);
      var image := ImagePath(host, volume);
      run.result.Ok? ==>
        && CreateImage(image, volume, size, Password(opts, false, host.generated, host.reply)) in run.trace
        && (RemoveImage(image) in run.trace <==> !opts.keepDmg)
        && (!opts.keepDmg ==> run.trace[|run.trace| - 1] == RemoveImage(image))
  {
    var prepared := PrepareDmg(opts, size, None, host);
    if prepared.result.Ok? {
      PrepareCreatesPlanned(opts, size, None, host);
      PrepareEffects(opts, size, None, host);
      assert RemoveImage(prepared.result.value.image) !in prepared.trace;
    }
  }

  /** A successful `prepare_dmg` has created the planned image. */
  lemma PrepareCreatesPlanned(opts: ImageOptions, size: nat, source: Option<string>, host: Host)
    ensures var run := PrepareDmg(opts, size, source, host);
      var volume := VolumeName(opts, source);
      run.result.Ok? ==>
        && CreateImage(ImagePath(host, volume), volume, size, Password(opts, source.Some?, host.generated, host.reply)) in run.trace
        && run.result.value.image == ImagePath(host, volume)
  {
    var run := PrepareDmg(opts, size, source, host);
    var planned := PlannedSteps(opts, size, source, host);
    PrepareFront(opts, size, source, host);
    if run.result.Ok? {
      FollowsPlanAt(run.trace, planned, SecuredSteps(opts, host), |planned| - 2);
    }
  }

  // ---------------------------------------------------------------------------
  // import_command
  // ---------------------------------------------------------------------------

  /** Lines 94-98 of `import_command`: test the password, then extract only when it is accepted. */
  function TestAndExtract(input: string, prepared: Prepared, host: Host): Run<()>
  {
    var test := TestArchive(input, prepared.password);
    var extract := ExtractArchive(input, prepared.mount, prepared.password);
    if host.fails(test) then Run([test], Err(Io))
    else if !PasswordAccepted(host.testStdout, host.testStderr) then Run([test], Err(Bail(InvalidPassword)))
    else Run([test, extract], if host.fails(extract) then Err(Io) else Ok(()))
  }

  /**
   * The password test comes first; a successful test that `check_password` rejects is the
   * "invalid password" error; the archive is extracted into the mount point, with the image's
   * password, exactly when the test succeeded and was accepted; the run stops at its first
   * failure.
   */
  lemma TestAndExtractRun(input: string, prepared: Prepared, host: Host)
    ensures var run := TestAndExtract(input, prepared, host);
      && run.trace != [] && run.trace[0] == TestArchive(input, prepared.password)
      && (run.result == Err(Bail(InvalidPassword)) <==>
            !host.fails(run.trace[0]) && !PasswordAccepted(host.testStdout, host.testStderr))
      && (|run.trace| > 1 <==> !host.fails(run.trace[0]) && PasswordAccepted(host.testStdout, host.testStderr))
      && (|run.trace| > 1 ==>
            |run.trace| == 2 && run.trace[1] == ExtractArchive(input, prepared.mount, prepared.password))
      && (run.result.Ok? ==> |run.trace| == 2 && !host.fails(run.trace[1]))
      && (run.result.Err? && run.result.error == Io ==> EndedByFailure(run.trace, host.fails))
      && StopsAtFirstFailure(run.trace, host.fails)
      && (run.result.Ok? ==> Succeeded(run.trace, host.fails))
  {
    var run := TestAndExtract(input, prepared, host);
    if |run.trace| == 2 {
      assert run.trace[1..] == [run.trace[1]];
    }
  }

  /**
   * Lines 94-99 of `import_command`, once the image is prepared: the password test, the
   * extraction into the mount point and `finalize_dmg`, after the effects of `prepare_dmg`.
   */
  function FillImage(opts: ImageOptions, input: string, prepared: Run<Prepared>, host: Host): Run<()> {
    if prepared.result.Err? then Run(prepared.trace, Err(prepared.result.error))
    else
      var checked := TestAndExtract(input, prepared.result.value, host);
      if checked.result.Err? then Run(prepared.trace + checked.trace, checked.result)
      else
        var fin := FinalizeDmg(opts, prepared.result.value, host.fails);
        Run(prepared.trace + checked.trace + fin.trace, fin.result)
  }

  /**
   * `import_command`, where `size` is what `get_uncompressed_zip_size` makes of the listing
   * `7z l` prints (`UncompressedSize`): the archive must canonicalise and be a regular file,
   * else the run fails before any effect; after the listing, the size in units plus
   * `extra_size` is the image size; the image is prepared as for `new`, with the archive as
   * source; then the password is tested and the archive extracted; the image is finalized as
   * for `new`.
   */
  function ImportCommand(opts: ImageOptions, extraSize: nat, path: string, size: Result<nat>, host: Host): (run: Run<()>)
    ensures host.canonical(path).None? ==> run == Run([], Err(Io))
    ensures host.canonical(path).Some? && !host.isFile(host.canonical(path).value) ==>
      run == Run([], Err(Bail(NotAFile)))
  {
    match host.canonical(path)
      case None => Run([], Err(Io))
      case Some(input) =>
        if !host.isFile(input) then Run([], Err(Bail(NotAFile)))
        else
          var list := ListArchive(input);
          if host.fails(list) then Run([list], Err(Io))
          else match size
            case Err(e) => Run([list], Err(e))
            case Ok(units) =>
              var filled := FillImage(opts, input, PrepareDmg(opts, units + extraSize, Some(input), host), host);
              Run([list] + filled.trace, filled.result)
  }

  /** The errors `get_uncompressed_zip_size` can report (`Zip.SizeErrors`). */
  predicate SizeError(size: Result<nat>) {
    size.Err? ==> size.error == Panic(UnwrapNone) || size.error == InvalidNumber
  }

  /** The `import` of `path` found a regular file, listed it and read its size. */
  predicate ImportListed(path: string, size: Result<nat>, host: Host) {
    && host.canonical(path).Some? && host.isFile(host.canonical(path).value)
    && !host.fails(ListArchive(host.canonical(path).value)) && size.Ok?
  }

  /** The `prepare_dmg` and `FillImage` stages of an `import` of `input`. */
  function ImportFilled(opts: ImageOptions, extraSize: nat, input: string, size: Result<nat>, host: Host): Run<()>
    requires size.Ok?
  {
    FillImage(opts, input, PrepareDmg(opts, size.value + extraSize, Some(input), host), host)
  }

  /** Once the listing gave a size, `import` is the listing followed by `FillImage`. */
  lemma ImportFills(opts: ImageOptions, extraSize: nat, path: string, size: Result<nat>, host: Host)
    requires ImportListed(path, size, host)
    ensures var input := host.canonical(path).value;
      var filled := ImportFilled(opts, extraSize, input, size, host);
      ImportCommand(opts, extraSize, path, size, host) == Run([ListArchive(input)] + filled.trace, filled.result)
  {
  }

  /**
   * An `import` that did not get a size from a listing of a regular file stopped before
   * `prepare_dmg`: at canonicalising the path, at the file check, at a failed listing or at a
   * listing whose size cannot be read.
   */
  lemma ImportStoppedEarly(opts: ImageOptions, extraSize: nat, path: string, size: Result<nat>, host: Host)
    requires !ImportListed(path, size, host)
    ensures var run := ImportCommand(opts, extraSize, path, size, host);
      || (host.canonical(path).None? && run == Run([], Err(Io)))
      || (host.canonical(path).Some? && !host.isFile(host.canonical(path).value) && run == Run([], Err(Bail(NotAFile))))
      || (host.canonical(path).Some? && host.isFile(host.canonical(path).value)
          && var list := ListArchive(host.canonical(path).value);
          || (host.fails(list) && run == Run([list], Err(Io)))
          || (!host.fails(list) && size.Err? && run == Run([list], Err(size.error))))
  {
  }

  /**
   * What follows `prepare_dmg` in `FillImage`: the test, then the extraction and the removal
   * of the image, each only when the step before succeeded.
   */
  lemma FillImageShape(opts: ImageOptions, input: string, prepared: Run<Prepared>, host: Host)
    ensures var filled := FillImage(opts, input, prepared, host);
      && |filled.trace| >= |prepared.trace|
      && filled.trace[..|prepared.trace|] == prepared.trace
      && (prepared.result.Err? ==> filled == Run(prepared.trace, Err(prepared.result.error)))
      && (prepared.result.Ok? ==>
            var p := prepared.result.value;
            var rest := filled.trace[|prepared.trace|..];
            && rest != [] && rest[0] == TestArchive(input, p.password)
            && (forall i | 0 <= i < |rest| ::
                  rest[i] == TestArchive(input, p.password)
                  || rest[i] == ExtractArchive(input, p.mount, p.password)
                  || rest[i] == RemoveImage(p.image))
            && (forall i | 0 < i < |rest| :: rest[i] != TestArchive(input, p.password))
            && (|rest| > 1 ==>
                  rest[1] == ExtractArchive(input, p.mount, p.password)
                  && !host.fails(rest[0]) && PasswordAccepted(host.testStdout, host.testStderr))
            && (|rest| > 2 ==> |rest| == 3 && rest[2] == RemoveImage(p.image) && !host.fails(rest[1]) && !opts.keepDmg)
            && (filled.result == Err(Bail(InvalidPassword)) <==>
                  !host.fails(rest[0]) && !PasswordAccepted(host.testStdout, host.testStderr))
            && (filled.result.Ok? ==>
                  && |rest| > 1 && !host.fails(rest[1])
                  && (!opts.keepDmg <==> |rest| == 3)
                  && (|rest| == 3 ==> !host.fails(rest[2]))))
  {
    var filled := FillImage(opts, input, prepared, host);
    if prepared.result.Ok? {
      var p := prepared.result.value;
      var checked := TestAndExtract(input, p, host);
      TestAndExtractRun(input, p, host);
      var rest := filled.trace[|prepared.trace|..];
      if checked.result.Err? {
        assert rest == checked.trace;
      } else {
        var fin := FinalizeDmg(opts, p, host.fails);
        assert rest == checked.trace + fin.trace;
      }
    }
  }

  /** `prepare_dmg` fails only with an I/O error or with the error of reading the attach output. */
  lemma PrepareErrors(opts: ImageOptions, size: nat, source: Option<string>, host: Host)
    ensures var run := PrepareDmg(opts, size, source, host);
      run.result.Err? ==>
        run.result.error == Io || (AttachedMount(host.attachStdout).Err? && run.result.error == AttachedMount(host.attachStdout).error)
  {
  }

  /** `FillImage` keeps the first-failure discipline of the `prepare_dmg` run it continues. */
  lemma FillImageStops(opts: ImageOptions, input: string, prepared: Run<Prepared>, host: Host)
    requires StopsAtFirstFailure(prepared.trace, host.fails)
    requires prepared.result.Ok? ==> Succeeded(prepared.trace, host.fails)
    requires prepared.result.Err? && prepared.result.error == Io ==> EndedByFailure(prepared.trace, host.fails)
    ensures var filled := FillImage(opts, input, prepared, host);
      && StopsAtFirstFailure(filled.trace, host.fails)
      && (filled.result.Ok? ==> Succeeded(filled.trace, host.fails))
      && (filled.result.Err? && filled.result.error == Io ==> EndedByFailure(filled.trace, host.fails))
  {
    if prepared.result.Ok? {
      var checked := TestAndExtract(input, prepared.result.value, host);
      TestAndExtractRun(input, prepared.result.value, host);
      ContinueAfter(prepared.trace, checked.trace, host.fails);
      if checked.result.Ok? {
        var fin := FinalizeDmg(opts, prepared.result.value, host.fails);
        ContinueAfter(prepared.trace + checked.trace, fin.trace, host.fails);
      }
    }
  }

  /** `prepare_dmg` followed by `FillImage` stops at its first failure. */
  lemma FilledStops(opts: ImageOptions, size: nat, input: string, host: Host)
    ensures var filled := FillImage(opts, input, PrepareDmg(opts, size, Some(input), host), host);
      && filled.trace != []
      && StopsAtFirstFailure(filled.trace, host.fails)
      && (filled.result.Ok? ==> Succeeded(filled.trace, host.fails))
      && (filled.result.Err? && filled.result.error == Io ==> EndedByFailure(filled.trace, host.fails))
  {
    var prepared := PrepareDmg(opts, size, Some(input), host);
    PrepareStopsAtFirstFailure(opts, size, Some(input), host);
    PrepareFollowsPlan(opts, size, Some(input), host);
    FillImageStops(opts, input, prepared, host);
    FillImageShape(opts, input, prepared, host);
  }

  /** A run that follows one successful effect keeps its first-failure discipline. */
  lemma AfterListing(first: Action, rest: Run<()>, fails: Action -> bool)
    requires !fails(first) && rest.trace != []
    requires StopsAtFirstFailure(rest.trace, fails)
    requires rest.result.Ok? ==> Succeeded(rest.trace, fails)
    requires rest.result.Err? && rest.result.error == Io ==> EndedByFailure(rest.trace, fails)
    ensures StopsAtFirstFailure([first] + rest.trace, fails)
    ensures rest.result.Ok? ==> Succeeded([first] + rest.trace, fails)
    ensures rest.result.Err? && rest.result.error == Io ==> EndedByFailure([first] + rest.trace, fails)
  {
    SucceededSnoc([], first, fails);
    assert [] + [first] == [first];
    ContinueAfter([first], rest.trace, fails);
  }

  /**
   * An `import` run stops at its first failure, and reports an I/O error only when its last
   * effect failed or when the archive could not be canonicalised (before any effect).
   */
  lemma ImportStopsAtFirstFailure(opts: ImageOptions, extraSize: nat, path: string, size: Result<nat>, host: Host)
    requires SizeError(size)
    ensures var run := ImportCommand(opts, extraSize, path, size, host);
      && StopsAtFirstFailure(run.trace, host.fails)
      && (run.result.Ok? ==> Succeeded(run.trace, host.fails))
      && (run.result.Err? && run.result.error == Io ==> run.trace == [] || EndedByFailure(run.trace, host.fails))
  {
    if ImportListed(path, size, host) {
      ImportStopsListed(opts, extraSize, path, size, host);
    } else {
      ImportStoppedEarly(opts, extraSize, path, size, host);
    }
  }

  lemma ImportStopsListed(opts: ImageOptions, extraSize: nat, path: string, size: Result<nat>, host: Host)
    requires ImportListed(path, size, host)
    ensures var run := ImportCommand(opts, extraSize, path, size, host);
      && StopsAtFirstFailure(run.trace, host.fails)
      && (run.result.Ok? ==> Succeeded(run.trace, host.fails))
      && (run.result.Err? && run.result.error == Io ==> EndedByFailure(run.trace, host.fails))
  {
    var input := host.canonical(path).value;
    ImportFills(opts, extraSize, path, size, host);
    FilledStops(opts, size.value + extraSize, input, host);
    AfterListing(ListArchive(input), ImportFilled(opts, extraSize, input, size, host), host.fails);
  }

  // Image size.

  /** Every image creation in `trace` is the effect `create` (`CreatesOnlyIff`). */
  predicate CreatesOnly(trace: seq<Action>, create: Action)
    decreases |trace|
  {
    trace == [] || ((trace[0].CreateImage? ==> trace[0] == create) && CreatesOnly(trace[1..], create))
  }

  lemma {:induction false} CreatesOnlyIff(trace: seq<Action>, create: Action)
    ensures CreatesOnly(trace, create) <==> forall i | 0 <= i < |trace| && trace[i].CreateImage? :: trace[i] == create
    decreases |trace|
  {
    if trace != [] {
      CreatesOnlyIff(trace[1..], create);
      assert forall i | 0 < i < |trace| :: trace[i] == trace[1..][i - 1];
    }
  }

  lemma {:induction false} CreatesOnlyAppend(a: seq<Action>, b: seq<Action>, create: Action)
    requires CreatesOnly(a, create) && CreatesOnly(b, create)
    ensures CreatesOnly(a + b, create)
    decreases |a|
  {
    if a == [] {
      assert a + b == b;
    } else {
      assert (a + b)[1..] == a[1..] + b;
      CreatesOnlyAppend(a[1..], b, create);
    }
  }

  /** `prepare_dmg` creates only the planned image. */
  lemma PrepareCreates(opts: ImageOptions, size: nat, source: Option<string>, host: Host)
    ensures var volume := VolumeName(opts, source);
      CreatesOnly(PrepareDmg(opts, size, source, host).trace,
                  CreateImage(ImagePath(host, volume), volume, size, Password(opts, source.Some?, host.generated, host.reply)))
  {
    var volume := VolumeName(opts, source);
    PrepareEffects(opts, size, source, host);
    CreatesOnlyIff(PrepareDmg(opts, size, source, host).trace,
                   CreateImage(ImagePath(host, volume), volume, size, Password(opts, source.Some?, host.generated, host.reply)));
  }

  /** The password test, the extraction and the removal of the image create no image. */
  lemma FillImageCreates(opts: ImageOptions, input: string, prepared: Run<Prepared>, host: Host, create: Action)
    requires CreatesOnly(prepared.trace, create)
    ensures CreatesOnly(FillImage(opts, input, prepared, host).trace, create)
  {
    if prepared.result.Ok? {
      var p := prepared.result.value;
      var checked := TestAndExtract(input, p, host);
      var fin := FinalizeDmg(opts, p, host.fails);
      TestAndExtractRun(input, p, host);
      assert CreatesOnly(checked.trace, create) by {
        if |checked.trace| > 1 {
          assert checked.trace[1..][1..] == [];
        }
      }
      CreatesOnlyAppend(prepared.trace, checked.trace, create);
      assert CreatesOnly(fin.trace, create) by {
        if fin.trace != [] {
          assert fin.trace[1..] == [];
        }
      }
      CreatesOnlyAppend(prepared.trace + checked.trace, fin.trace, create);
    }
  }

  /** The `prepare_dmg` and `FillImage` stages of an `import` create only the planned image. */
  lemma FilledCreates(opts: ImageOptions, size: nat, input: string, host: Host, create: Action)
    requires var volume := VolumeName(opts, Some(input));
      create == CreateImage(ImagePath(host, volume), volume, size, Password(opts, true, host.generated, host.reply))
    ensures CreatesOnly(FillImage(opts, input, PrepareDmg(opts, size, Some(input), host), host).trace, create)
  {
    PrepareCreates(opts, size, Some(input), host);
    FillImageCreates(opts, input, PrepareDmg(opts, size, Some(input), host), host, create);
  }

  /**
   * Every image an `import` creates is the one planned for the archive, with the archive's
   * uncompressed size in units plus `extra_size`; nothing is created when the size is unknown.
   */
  lemma ImportSize(opts: ImageOptions, extraSize: nat, path: string, size: Result<nat>, host: Host)
    ensures var run := ImportCommand(opts, extraSize, path, size, host);
      forall i | 0 <= i < |run.trace| && run.trace[i].CreateImage? ::
        && size.Ok? && host.canonical(path).Some?
        && var volume := VolumeName(opts, host.canonical(path));
        run.trace[i] == CreateImage(ImagePath(host, volume), volume, size.value + extraSize,
                                    Password(opts, true, host.generated, host.reply))
  {
    if ImportListed(path, size, host) {
      var input := host.canonical(path).value;
      var volume := VolumeName(opts, Some(input));
      var create := CreateImage(ImagePath(host, volume), volume, size.value + extraSize,
                                Password(opts, true, host.generated, host.reply));
      ImportSizeListed(opts, extraSize, path, size, host, create);
      CreatesOnlyIff(ImportCommand(opts, extraSize, path, size, host).trace, create);
    } else {
      ImportStoppedEarly(opts, extraSize, path, size, host);
    }
  }

  lemma ImportSizeListed(opts: ImageOptions, extraSize: nat, path: string, size: Result<nat>, host: Host, create: Action)
    requires ImportListed(path, size, host)
    requires var volume := VolumeName(opts, host.canonical(path));
      create == CreateImage(ImagePath(host, volume), volume, size.value + extraSize,
                            Password(opts, true, host.generated, host.reply))
    ensures CreatesOnly(ImportCommand(opts, extraSize, path, size, host).trace, create)
  {
    var input := host.canonical(path).value;
    ImportFills(opts, extraSize, path, size, host);
    FilledCreates(opts, size.value + extraSize, input, host, create);
    var filled := ImportFilled(opts, extraSize, input, size, host);
    assert ([ListArchive(input)] + filled.trace)[1..] == filled.trace;
  }

  /**
   * With `size` what `get_uncompressed_zip_size` reads from a listing whose summary line has
   * the decimal byte count `bytes` as its third field, every image an `import` creates has
   * `bytes / 1024 + 1 + extra_size` units.
   */
  lemma ImportSizeOfListing(opts: ImageOptions, extraSize: nat, path: string, host: Host,
                            body: string, summary: string, trailing: string, bytes: nat)
    requires summary != [] && '\n' !in summary
    requires !IsWhitespace(summary[0]) && !IsWhitespace(summary[|summary| - 1])
    requires forall i | 0 <= i < |trailing| :: IsWhitespace(trailing[i])
    requires |Tokens(summary)| >= 3 && Tokens(summary)[2] == Decimal(bytes) && bytes <= U64_MAX
    ensures var run := ImportCommand(opts, extraSize, path, UncompressedSize(body + "\n" + summary + trailing), host);
      forall i | 0 <= i < |run.trace| && run.trace[i].CreateImage? ::
        run.trace[i].size == bytes / 1024 + 1 + extraSize
  {
    ListingSize(body, summary, trailing, bytes);
    ImportSize(opts, extraSize, path, Ok(SizeUnits(bytes)), host);
  }

  // Extraction only after an accepted password test.

  /**
   * `archive` is unpacked with `password` into the mount point `into` by the effect `extract`,
   * right after the effect `before`, which is the test of `archive` with `password`, which
   * succeeded and whose verdict was `accepted`.
   */
  predicate GuardedExtract(before: Action, extract: Action, archive: string, password: string,
                           into: Result<string>, fails: Action -> bool, accepted: bool)
  {
    && into.Ok? && extract == ExtractArchive(archive, into.value, password)
    && before == TestArchive(archive, password) && !fails(before) && accepted
  }

  /** Every extraction in `trace` after the first effect is a `GuardedExtract` by the effect before it. */
  predicate ExtractsGuarded(trace: seq<Action>, archive: string, password: string, into: Result<string>,
                            fails: Action -> bool, accepted: bool)
    decreases |trace|
  {
    |trace| <= 1 ||
    ((trace[1].ExtractArchive? ==> GuardedExtract(trace[0], trace[1], archive, password, into, fails, accepted))
      && ExtractsGuarded(trace[1..], archive, password, into, fails, accepted))
  }

  /**
   * No extraction in `trace` comes first, and every later one is a `GuardedExtract` by the
   * effect before it (`ExtractsAfterTestIff`).
   */
  predicate ExtractsAfterTest(trace: seq<Action>, archive: string, password: string, into: Result<string>,
                              fails: Action -> bool, accepted: bool)
  {
    (trace != [] ==> !trace[0].ExtractArchive?) && ExtractsGuarded(trace, archive, password, into, fails, accepted)
  }

  lemma {:induction false} ExtractsGuardedIff(trace: seq<Action>, archive: string, password: string,
                                              into: Result<string>, fails: Action -> bool, accepted: bool)
    ensures ExtractsGuarded(trace, archive, password, into, fails, accepted) <==>
      forall i | 0 < i < |trace| && trace[i].ExtractArchive? ::
        GuardedExtract(trace[i - 1], trace[i], archive, password, into, fails, accepted)
    decreases |trace|
  {
    if |trace| > 1 {
      ExtractsGuardedIff(trace[1..], archive, password, into, fails, accepted);
      assert forall i | 0 < i < |trace| :: trace[i] == trace[1..][i - 1];
    }
  }

  lemma ExtractsAfterTestIff(trace: seq<Action>, archive: string, password: string,
                             into: Result<string>, fails: Action -> bool, accepted: bool)
    ensures ExtractsAfterTest(trace, archive, password, into, fails, accepted) <==>
      forall i | 0 <= i < |trace| && trace[i].ExtractArchive? ::
        0 < i && GuardedExtract(trace[i - 1], trace[i], archive, password, into, fails, accepted)
  {
    ExtractsGuardedIff(trace, archive, password, into, fails, accepted);
  }

  lemma {:induction false} ExtractsGuardedAppend(a: seq<Action>, b: seq<Action>, archive: string, password: string,
                                                 into: Result<string>, fails: Action -> bool, accepted: bool)
    requires ExtractsGuarded(a, archive, password, into, fails, accepted)
    requires ExtractsAfterTest(b, archive, password, into, fails, accepted)
    ensures ExtractsGuarded(a + b, archive, password, into, fails, accepted)
    decreases |a|
  {
    if a == [] {
      assert a + b == b;
    } else if |a| == 1 {
      assert (a + b)[1..] == b;
    } else {
      assert (a + b)[1..] == a[1..] + b;
      assert (a + b)[1] == a[1];
      ExtractsGuardedAppend(a[1..], b, archive, password, into, fails, accepted);
    }
  }

  lemma ExtractsAfterTestAppend(a: seq<Action>, b: seq<Action>, archive: string, password: string,
                                into: Result<string>, fails: Action -> bool, accepted: bool)
    requires ExtractsAfterTest(a, archive, password, into, fails, accepted)
    requires ExtractsAfterTest(b, archive, password, into, fails, accepted)
    ensures ExtractsAfterTest(a + b, archive, password, into, fails, accepted)
  {
    ExtractsGuardedAppend(a, b, archive, password, into, fails, accepted);
    if a == [] {
      assert a + b == b;
    } else {
      assert (a + b)[0] == a[0];
    }
  }

  /** `prepare_dmg` extracts nothing. */
  lemma PrepareExtractsNothing(opts: ImageOptions, size: nat, source: Option<string>, host: Host, archive: string,
                               password: string, into: Result<string>, accepted: bool)
    ensures ExtractsAfterTest(PrepareDmg(opts, size, source, host).trace, archive, password, into, host.fails, accepted)
  {
    var trace := PrepareDmg(opts, size, source, host).trace;
    PrepareEffects(opts, size, source, host);
    ExtractsAfterTestIff(trace, archive, password, into, host.fails, accepted);
  }

  /** `FillImage` extracts only into the mount point it was given, right after an accepted test. */
  lemma FillImageExtracts(opts: ImageOptions, input: string, prepared: Run<Prepared>, host: Host, into: Result<string>)
    requires ExtractsAfterTest(prepared.trace, input, Password(opts, true, host.generated, host.reply), into,
                               host.fails, PasswordAccepted(host.testStdout, host.testStderr))
    requires prepared.result.Ok? ==>
      into == Ok(prepared.result.value.mount) && prepared.result.value.password == Password(opts, true, host.generated, host.reply)
    ensures ExtractsAfterTest(FillImage(opts, input, prepared, host).trace, input, Password(opts, true, host.generated, host.reply),
                              into, host.fails, PasswordAccepted(host.testStdout, host.testStderr))
  {
    var password := Password(opts, true, host.generated, host.reply);
    var accepted := PasswordAccepted(host.testStdout, host.testStderr);
    if prepared.result.Ok? {
      var p := prepared.result.value;
      var checked := TestAndExtract(input, p, host);
      var fin := FinalizeDmg(opts, p, host.fails);
      TestAndExtractRun(input, p, host);
      assert ExtractsAfterTest(checked.trace, input, password, into, host.fails, accepted) by {
        if |checked.trace| > 1 {
          assert checked.trace[1..][1..] == [];
        }
      }
      ExtractsAfterTestAppend(prepared.trace, checked.trace, input, password, into, host.fails, accepted);
      assert ExtractsAfterTest(fin.trace, input, password, into, host.fails, accepted) by {
        if fin.trace != [] {
          assert fin.trace[1..] == [];
        }
      }
      ExtractsAfterTestAppend(prepared.trace + checked.trace, fin.trace, input, password, into, host.fails, accepted);
    }
  }

  /** `FillImage` after `prepare_dmg` extracts only into the mount point, right after an accepted test. */
  lemma FilledExtracts(opts: ImageOptions, size: nat, input: string, host: Host)
    ensures ExtractsAfterTest(FillImage(opts, input, PrepareDmg(opts, size, Some(input), host), host).trace,
                              input, Password(opts, true, host.generated, host.reply), AttachedMount(host.attachStdout),
                              host.fails, PasswordAccepted(host.testStdout, host.testStderr))
  {
    var prepared := PrepareDmg(opts, size, Some(input), host);
    PrepareExtractsNothing(opts, size, Some(input), host, input, Password(opts, true, host.generated, host.reply),
                           AttachedMount(host.attachStdout), PasswordAccepted(host.testStdout, host.testStderr));
    PrepareFollowsPlan(opts, size, Some(input), host);
    FillImageExtracts(opts, input, prepared, host, AttachedMount(host.attachStdout));
  }

  /**
   * An `import` extracts the archive only into the mount point read from the attach output,
   * with the image's password, and only right after `7z t` with that password succeeded and
   * `check_password` accepted its output.
   */
  lemma ImportExtractsAfterAcceptedTest(opts: ImageOptions, extraSize: nat, path: string, size: Result<nat>, host: Host)
    ensures host.canonical(path).Some? ==>
      ExtractsAfterTest(ImportCommand(opts, extraSize, path, size, host).trace, host.canonical(path).value,
                        Password(opts, true, host.generated, host.reply), AttachedMount(host.attachStdout),
                        host.fails, PasswordAccepted(host.testStdout, host.testStderr))
  {
    if ImportListed(path, size, host) {
      ImportExtractsListed(opts, extraSize, path, size, host);
    } else {
      ImportStoppedEarly(opts, extraSize, path, size, host);
    }
  }

  lemma ImportExtractsListed(opts: ImageOptions, extraSize: nat, path: string, size: Result<nat>, host: Host)
    requires ImportListed(path, size, host)
    ensures ExtractsAfterTest(ImportCommand(opts, extraSize, path, size, host).trace, host.canonical(path).value,
                              Password(opts, true, host.generated, host.reply), AttachedMount(host.attachStdout),
                              host.fails, PasswordAccepted(host.testStdout, host.testStderr))
  {
    var input := host.canonical(path).value;
    ImportFills(opts, extraSize, path, size, host);
    FilledExtracts(opts, size.value + extraSize, input, host);
    var filled := ImportFilled(opts, extraSize, input, size, host);
    ExtractsAfterTestAppend([ListArchive(input)], filled.trace, input, Password(opts, true, host.generated, host.reply),
                            AttachedMount(host.attachStdout), host.fails, PasswordAccepted(host.testStdout, host.testStderr));
  }

  // The "invalid password" verdict.

  /** After a `prepare_dmg` run that never tested the archive, "invalid password" means a rejected test. */
  lemma FillImageInvalidPassword(opts: ImageOptions, input: string, prepared: Run<Prepared>, host: Host, password: string)
    requires TestArchive(input, password) !in prepared.trace
    requires prepared.result.Err? ==> prepared.result.error != Bail(InvalidPassword)
    requires prepared.result.Ok? ==> prepared.result.value.password == password
    ensures var filled := FillImage(opts, input, prepared, host);
      var test := TestArchive(input, password);
      filled.result == Err(Bail(InvalidPassword)) <==>
        test in filled.trace && !host.fails(test) && !PasswordAccepted(host.testStdout, host.testStderr)
  {
    if prepared.result.Ok? {
      var p := prepared.result.value;
      TestAndExtractRun(input, p, host);
      var checked := TestAndExtract(input, p, host);
      assert TestArchive(input, password) in checked.trace;
    }
  }

  /** The `prepare_dmg` and `FillImage` stages give "invalid password" exactly for a rejected test. */
  lemma FilledInvalidPassword(opts: ImageOptions, size: nat, input: string, host: Host)
    ensures var filled := FillImage(opts, input, PrepareDmg(opts, size, Some(input), host), host);
      var test := TestArchive(input, Password(opts, true, host.generated, host.reply));
      filled.result == Err(Bail(InvalidPassword)) <==>
        test in filled.trace && !host.fails(test) && !PasswordAccepted(host.testStdout, host.testStderr)
  {
    var prepared := PrepareDmg(opts, size, Some(input), host);
    var password := Password(opts, true, host.generated, host.reply);
    PrepareEffects(opts, size, Some(input), host);
    PrepareErrors(opts, size, Some(input), host);
    AttachErrors(host.attachStdout);
    PrepareFollowsPlan(opts, size, Some(input), host);
    assert TestArchive(input, password) !in prepared.trace;
    FillImageInvalidPassword(opts, input, prepared, host, password);
  }

  /**
   * An `import` fails with "invalid password" exactly when `7z t` ran with the image's password,
   * succeeded, and `check_password` rejected its output.
   */
  lemma ImportInvalidPassword(opts: ImageOptions, extraSize: nat, path: string, size: Result<nat>, host: Host)
    requires SizeError(size)
    ensures var run := ImportCommand(opts, extraSize, path, size, host);
      run.result == Err(Bail(InvalidPassword)) <==>
        && host.canonical(path).Some?
        && var test := TestArchive(host.canonical(path).value, Password(opts, true, host.generated, host.reply));
        test in run.trace && !host.fails(test) && !PasswordAccepted(host.testStdout, host.testStderr)
  {
    if ImportListed(path, size, host) {
      var input := host.canonical(path).value;
      ImportFills(opts, extraSize, path, size, host);
      FilledInvalidPassword(opts, size.value + extraSize, input, host);
    } else {
      ImportStoppedEarly(opts, extraSize, path, size, host);
    }
  }

  // A successful import.

  /**
   * After a `prepare_dmg` run that removed nothing, a successful `FillImage` has extracted the
   * archive into the mount point, after the steps of `prepare_dmg`, and removed the image, as
   * its last effect, exactly without `--keep`.
   */
  lemma FillImageSucceeds(opts: ImageOptions, input: string, prepared: Run<Prepared>, host: Host)
    requires prepared.result.Ok? ==> RemoveImage(prepared.result.value.image) !in prepared.trace
    ensures var filled := FillImage(opts, input, prepared, host);
      filled.result.Ok? ==>
        && prepared.result.Ok?
        && var p := prepared.result.value;
        && var extract := ExtractArchive(input, p.mount, p.password);
        && extract in filled.trace
        && (forall a | a in prepared.trace :: Before(filled.trace, a, extract))
        && (RemoveImage(p.image) in filled.trace <==> !opts.keepDmg)
        && (!opts.keepDmg ==> filled.trace[|filled.trace| - 1] == RemoveImage(p.image))
  {
    var filled := FillImage(opts, input, prepared, host);
    if filled.result.Ok? {
      var p := prepared.result.value;
      TestAndExtractRun(input, p, host);
      var checked := TestAndExtract(input, p, host);
      var fin := FinalizeDmg(opts, p, host.fails);
      var extract := ExtractArchive(input, p.mount, p.password);
      assert filled.trace == prepared.trace + (checked.trace + fin.trace);
      assert extract in checked.trace + fin.trace;
      forall a | a in prepared.trace ensures Before(filled.trace, a, extract) {
        BeforeAppend(prepared.trace, checked.trace + fin.trace, a, extract);
      }
    }
  }

  /**
   * A successful `import` has extracted the archive, with the image's password, into the mount
   * point read from the attach output, after attaching the image; it removed the image, as its
   * very last effect, exactly when `--keep` was not given.
   */
  lemma ImportSucceeds(opts: ImageOptions, extraSize: nat, path: string, size: Result<nat>, host: Host)
    ensures var run := ImportCommand(opts, extraSize, path, size, host);
      run.result.Ok? ==>
        && host.canonical(path).Some? && AttachedMount(host.attachStdout).Ok?
        && var input := host.canonical(path).value;
        && var password := Password(opts, true, host.generated, host.reply);
        && var image := ImagePath(host, VolumeName(opts, Some(input)));
        && var extract := ExtractArchive(input, AttachedMount(host.attachStdout).value, password);
        && extract in run.trace
        && Before(run.trace, AttachImage(image, password), extract)
        && (RemoveImage(image) in run.trace <==> !opts.keepDmg)
        && (!opts.keepDmg ==> run.trace[|run.trace| - 1] == RemoveImage(image))
  {
    if ImportListed(path, size, host) {
      ImportSucceedsListed(opts, extraSize, path, size, host);
    } else {
      ImportStoppedEarly(opts, extraSize, path, size, host);
    }
  }

  lemma ImportSucceedsListed(opts: ImageOptions, extraSize: nat, path: string, size: Result<nat>, host: Host)
    requires ImportListed(path, size, host)
    ensures var run := ImportCommand(opts, extraSize, path, size, host);
      run.result.Ok? ==>
        && AttachedMount(host.attachStdout).Ok?
        && var input := host.canonical(path).value;
        && var password := Password(opts, true, host.generated, host.reply);
        && var image := ImagePath(host, VolumeName(opts, Some(input)));
        && var extract := ExtractArchive(input, AttachedMount(host.attachStdout).value, password);
        && extract in run.trace
        && Before(run.trace, AttachImage(image, password), extract)
        && (RemoveImage(image) in run.trace <==> !opts.keepDmg)
        && (!opts.keepDmg ==> run.trace[|run.trace| - 1] == RemoveImage(image))
  {
    var input := host.canonical(path).value;
    var filled := ImportFilled(opts, extraSize, input, size, host);
    ImportFills(opts, extraSize, path, size, host);
    FilledSucceeds(opts, size.value + extraSize, input, host);
    if filled.result.Ok? {
      var password := Password(opts, true, host.generated, host.reply);
      var image := ImagePath(host, VolumeName(opts, Some(input)));
      var extract := ExtractArchive(input, AttachedMount(host.attachStdout).value, password);
      BeforePrepend([ListArchive(input)], filled.trace, AttachImage(image, password), extract);
    }
  }

  /**
   * The password check comes after mounting: whenever an `import` runs `7z t`, the effects before
   * it are the listing and the whole of a successful `prepare_dmg`, which attached the image with
   * the password the test then uses.
   */
  lemma ImportTestsAfterAttach(opts: ImageOptions, extraSize: nat, path: string, size: Result<nat>, host: Host)
    ensures var run := ImportCommand(opts, extraSize, path, size, host);
      forall i | 0 <= i < |run.trace| && run.trace[i].TestArchive? ::
        && ImportListed(path, size, host)
        && var input := host.canonical(path).value;
        && var password := Password(opts, true, host.generated, host.reply);
        && var prepared := PrepareDmg(opts, size.value + extraSize, Some(input), host);
        && prepared.result.Ok?
        && run.trace[..i] == [ListArchive(input)] + prepared.trace
        && run.trace[i] == TestArchive(input, password)
        && AttachImage(ImagePath(host, VolumeName(opts, Some(input))), password) in run.trace[..i]
  {
    if ImportListed(path, size, host) {
      ImportTestsListed(opts, extraSize, path, size, host);
    } else {
      ImportStoppedEarly(opts, extraSize, path, size, host);
    }
  }

  lemma ImportTestsListed(opts: ImageOptions, extraSize: nat, path: string, size: Result<nat>, host: Host)
    requires ImportListed(path, size, host)
    ensures var run := ImportCommand(opts, extraSize, path, size, host);
      forall i | 0 <= i < |run.trace| && run.trace[i].TestArchive? ::
        && var input := host.canonical(path).value;
        && var password := Password(opts, true, host.generated, host.reply);
        && var prepared := PrepareDmg(opts, size.value + extraSize, Some(input), host);
        && prepared.result.Ok?
        && run.trace[..i] == [ListArchive(input)] + prepared.trace
        && run.trace[i] == TestArchive(input, password)
        && AttachImage(ImagePath(host, VolumeName(opts, Some(input))), password) in run.trace[..i]
  {
    var input := host.canonical(path).value;
    var password := Password(opts, true, host.generated, host.reply);
    var prepared := PrepareDmg(opts, size.value + extraSize, Some(input), host);
    var filled := FillImage(opts, input, prepared, host);
    var run := ImportCommand(opts, extraSize, path, size, host);
    ImportFills(opts, extraSize, path, size, host);
    assert run.trace == [ListArchive(input)] + filled.trace;
    PrepareTestsNothing(opts, size.value + extraSize, Some(input), host);
    PrepareAttached(opts, size.value + extraSize, Some(input), host);
    FillImageTests(opts, input, prepared, host);
    TestsAfterListing(ListArchive(input), filled.trace, prepared.trace, TestArchive(input, password),
                      AttachImage(ImagePath(host, VolumeName(opts, Some(input))), password), prepared.result.Ok?);
  }

  /**
   * Putting the listing in front shifts every test by one and adds the listing to what precedes
   * it; `ok`, the test itself and an effect before it carry over unchanged.
   */
  lemma TestsAfterListing(list: Action, filled: seq<Action>, prefix: seq<Action>, test: Action, attach: Action, ok: bool)
    requires !list.TestArchive?
    requires forall i | 0 <= i < |filled| && filled[i].TestArchive? :: ok && filled[..i] == prefix && filled[i] == test
    requires ok ==> attach in prefix
    ensures var t := [list] + filled;
      forall i | 0 <= i < |t| && t[i].TestArchive? :: ok && t[..i] == [list] + prefix && t[i] == test && attach in t[..i]
  {
    var t := [list] + filled;
    forall i | 0 <= i < |t| && t[i].TestArchive?
      ensures ok && t[..i] == [list] + prefix && t[i] == test && attach in t[..i]
    {
      assert t[i] == filled[i - 1];
      assert t[..i] == [list] + filled[..i - 1];
    }
  }

  /** `prepare_dmg` never tests an archive, and a successful one returns the chosen password. */
  lemma PrepareTestsNothing(opts: ImageOptions, size: nat, source: Option<string>, host: Host)
    ensures var run := PrepareDmg(opts, size, source, host);
      && (forall j | 0 <= j < |run.trace| :: !run.trace[j].TestArchive?)
      && (run.result.Ok? ==> run.result.value.password == Password(opts, source.Some?, host.generated, host.reply))
  {
    PrepareEffects(opts, size, source, host);
  }

  /** After a `prepare_dmg` run that tested nothing, `FillImage` tests only right after it. */
  lemma FillImageTests(opts: ImageOptions, input: string, prepared: Run<Prepared>, host: Host)
    requires forall j | 0 <= j < |prepared.trace| :: !prepared.trace[j].TestArchive?
    ensures var filled := FillImage(opts, input, prepared, host);
      forall i | 0 <= i < |filled.trace| && filled.trace[i].TestArchive? ::
        prepared.result.Ok? && i == |prepared.trace| && filled.trace[..i] == prepared.trace
        && filled.trace[i] == TestArchive(input, prepared.result.value.password)
  {
    var filled := FillImage(opts, input, prepared, host);
    FillImageShape(opts, input, prepared, host);
    forall i | |prepared.trace| <= i < |filled.trace| && filled.trace[i].TestArchive?
      ensures filled.trace[i] == filled.trace[|prepared.trace|..][i - |prepared.trace|]
    {
    }
  }

  /** The `prepare_dmg` and `FillImage` stages of a successful `import`. */
  lemma FilledSucceeds(opts: ImageOptions, size: nat, input: string, host: Host)
    ensures var filled := FillImage(opts, input, PrepareDmg(opts, size, Some(input), host), host);
      filled.result.Ok? ==>
        && AttachedMount(host.attachStdout).Ok?
        && var password := Password(opts, true, host.generated, host.reply);
        && var image := ImagePath(host, VolumeName(opts, Some(input)));
        && var extract := ExtractArchive(input, AttachedMount(host.attachStdout).value, password);
        && extract in filled.trace
        && Before(filled.trace, AttachImage(image, password), extract)
        && (RemoveImage(image) in filled.trace <==> !opts.keepDmg)
        && (!opts.keepDmg ==> filled.trace[|filled.trace| - 1] == RemoveImage(image))
  {
    var prepared := PrepareDmg(opts, size, Some(input), host);
    PrepareFollowsPlan(opts, size, Some(input), host);
    PrepareAttached(opts, size, Some(input), host);
    PrepareEffects(opts, size, Some(input), host);
    assert prepared.result.Ok? ==> RemoveImage(prepared.result.value.image) !in prepared.trace;
    FillImageSucceeds(opts, input, prepared, host);
  }

  /** A successful `prepare_dmg` has attached the planned image with the chosen password. */
  lemma PrepareAttached(opts: ImageOptions, size: nat, source: Option<string>, host: Host)
    ensures var run := PrepareDmg(opts, size, source, host);
      run.result.Ok? ==>
        AttachImage(ImagePath(host, VolumeName(opts, source)), Password(opts, source.Some?, host.generated, host.reply)) in run.trace
  {
    var run := PrepareDmg(opts, size, source, host);
    var planned := PlannedSteps(opts, size, source, host);
    PrepareFront(opts, size, source, host);
    if run.result.Ok? {
      FollowsPlanAt(run.trace, planned, SecuredSteps(opts, host), |planned| - 1);
    }
  }

  // The password prompt.

  /**
   * An `import` prompts for the password exactly when no `--password` was given and it got as
   * far as `prepare_dmg`; the generated password is never used: every image it creates gets
   * the given password, or else the prompt's reply.
   */
  lemma ImportPrompts(opts: ImageOptions, extraSize: nat, path: string, size: Result<nat>, host: Host)
    ensures Prompt in ImportCommand(opts, extraSize, path, size, host).trace <==>
      ImportListed(path, size, host) && opts.password.None?
    ensures var trace := ImportCommand(opts, extraSize, path, size, host).trace;
      forall i | 0 <= i < |trace| && trace[i].CreateImage? ::
        trace[i].password == if opts.password.Some? then opts.password.value else host.reply
  {
    ImportSize(opts, extraSize, path, size, host);
    if ImportListed(path, size, host) {
      var input := host.canonical(path).value;
      ImportFills(opts, extraSize, path, size, host);
      FilledPrompts(opts, size.value + extraSize, input, host);
    } else {
      ImportStoppedEarly(opts, extraSize, path, size, host);
    }
  }

  /** The `prepare_dmg` and `FillImage` stages prompt exactly when no `--password` was given. */
  lemma FilledPrompts(opts: ImageOptions, size: nat, input: string, host: Host)
    ensures Prompt in FillImage(opts, input, PrepareDmg(opts, size, Some(input), host), host).trace <==> opts.password.None?
  {
    var prepared := PrepareDmg(opts, size, Some(input), host);
    PromptsIff(opts, size, Some(input), host);
    if prepared.result.Ok? {
      var p := prepared.result.value;
      TestAndExtractRun(input, p, host);
      var checked := TestAndExtract(input, p, host);
      assert Prompt !in checked.trace;
    }
  }
}
