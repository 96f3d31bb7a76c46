/**
 * The disk-image side of the program (src/dmg.rs): reading the mount point out of
 * `hdiutil attach` output, the registry of managed volumes built from `hdiutil info` and the
 * expiry marker, and the securing steps that write that marker.
 */
module Dmg {
  import opened Outcomes
  import opened Text
  import opened Effects

  /** A managed volume: its mount point and its expiry in seconds since the Unix epoch. */
  datatype Volume = Volume(mount: string, expires: nat)

  const HfsPartition: string := "\tApple_HFS"
  const MountFailed: string := "failed to mount dmg"
  const MarkerFile: string := ".encrypted-volume-good-until"
  const NeverIndexFile: string := ".metadata_never_index"
  const IconFile: string := ".VolumeIcon.icns"
  const SecondsPerDay: nat := 60 * 60 * 24

  // ---------------------------------------------------------------------------
  // mount_dmg: the mount point in `hdiutil attach` output
  // ---------------------------------------------------------------------------

  /** `line.splitn(3, '\t').nth(2)`: the rest of the line after its second tab. */
  function AfterSecondTab(line: string): Option<string> {
    var i := IndexOf(line, '\t');
    if i == |line| then None
    else
      var rest := line[i + 1..];
      var j := IndexOf(rest, '\t');
      if j == |rest| then None else Some(rest[j + 1..])
  }

  /** Index of the first line containing `pattern`, or `|lines|`. */
  function FirstContaining(lines: seq<string>, pattern: string): (k: nat)
    ensures k <= |lines|
    ensures forall j | 0 <= j < k :: !Contains(lines[j], pattern)
    ensures k < |lines| ==> Contains(lines[k], pattern)
  {
    if lines == [] || Contains(lines[0], pattern) then 0
    else 1 + FirstContaining(lines[1..], pattern)
  }

  /**
   * What `mount_dmg` makes of the attach output: the text after the second tab of the first
   * line that contains "\tApple_HFS"; "failed to mount dmg" when no line does; a panic of the
   * `unwrap` when that line has a single tab.
   */
  function AttachedMount(stdout: string): Result<string> {
    var lines := Lines(stdout);
    var k := FirstContaining(lines, HfsPartition);
    if k == |lines| then Err(Bail(MountFailed))
    else match AfterSecondTab(lines[k])
      case None => Err(Panic(UnwrapNone))
      case Some(mount) => Ok(mount)
  }

  /** Reading the attach output fails only with "failed to mount dmg" or with the panic of the `unwrap`. */
  lemma AttachErrors(stdout: string)
    ensures AttachedMount(stdout).Err? ==>
      AttachedMount(stdout).error == Bail(MountFailed) || AttachedMount(stdout).error == Panic(UnwrapNone)
  {
  }

  /** The line loop of `mount_dmg`, returning at the first HFS line. */
  method ParseAttachOutput(stdout: string) returns (r: Result<string>)
    ensures r == AttachedMount(stdout)
  {
    var lines := Lines(stdout);
    var i := 0;
    while i < |lines|
      invariant 0 <= i <= |lines|
      invariant forall j | 0 <= j < i :: !Contains(lines[j], HfsPartition)
    {
      var line := lines[i];
      if Contains(line, HfsPartition) {
        FirstContainingIs(lines, HfsPartition, i);
        var field := AfterSecondTab(line);
        if field.None? {
          return Err(Panic(UnwrapNone));
        }
        return Ok(field.value);
      }
      i := i + 1;
    }
    FirstContainingIs(lines, HfsPartition, |lines|);
    return Err(Bail(MountFailed));
  }

  /**
   * `mount_dmg`: attaches the image, feeding it the password, and reads the mount point from
   * the output; a failing `hdiutil` run is an I/O error.
   */
  function MountDmg(image: string, password: string, stdout: string, fails: Action -> bool): (run: Run<string>)
    ensures run.trace == [AttachImage(image, password)]
    ensures run.result.Err? <==> fails(AttachImage(image, password)) || AttachedMount(stdout).Err?
    ensures !fails(AttachImage(image, password)) ==> run.result == AttachedMount(stdout)
    ensures fails(AttachImage(image, password)) ==> run.result == Err(Io)
  {
    var attach := AttachImage(image, password);
    Run([attach], if fails(attach) then Err(Io) else AttachedMount(stdout))
  }

  lemma FirstContainingIs(lines: seq<string>, pattern: string, k: nat)
    requires k <= |lines|
    requires forall j | 0 <= j < k :: !Contains(lines[j], pattern)
    requires k < |lines| ==> Contains(lines[k], pattern)
    ensures FirstContaining(lines, pattern) == k
  {
  }

  /** Only the first two tabs split: later tabs stay in the mount point. */
  lemma AfterSecondTabSplit(a: string, b: string, c: string)
    requires '\t' !in a && '\t' !in b
    ensures AfterSecondTab(a + "\t" + b + "\t" + c) == Some(c)
  {
    var line := a + "\t" + b + "\t" + c;
    IndexOfAfter(a, '\t', b + "\t" + c);
    assert line == a + ['\t'] + (b + "\t" + c);
    var rest := line[|a| + 1..];
    assert rest == b + ['\t'] + c;
    IndexOfAfter(b, '\t', c);
    assert rest[|b| + 1..] == c;
  }

  /** A line with a single tab has no third field: the `unwrap` panics. */
  lemma AfterSecondTabMissing(a: string, b: string)
    requires '\t' !in a && '\t' !in b
    ensures AfterSecondTab(a + "\t" + b) == None
  {
    var line := a + "\t" + b;
    IndexOfAfter(a, '\t', b);
    assert line == a + ['\t'] + b;
    assert line[|a| + 1..] == b;
  }

  /** Index of the first HFS line when it follows lines without the pattern. */
  lemma FirstContainingAfter(before: seq<string>, line: string, after: seq<string>, pattern: string)
    requires forall i | 0 <= i < |before| :: !Contains(before[i], pattern)
    requires Contains(line, pattern)
    ensures FirstContaining(before + [line] + after, pattern) == |before|
  {
    var lines := before + [line] + after;
    forall j | 0 <= j < |before| ensures !Contains(lines[j], pattern) {
      assert lines[j] == before[j];
    }
    assert lines[|before|] == line;
    FirstContainingIs(lines, pattern, |before|);
  }

  /** The HFS line `device<TAB>Apple_HFS<TAB>mount` as `mount_dmg` reads it. */
  lemma HfsLine(device: string, mount: string)
    requires '\t' !in device && '\n' !in device && PlainLine(mount)
    ensures var line := device + HfsPartition + "\t" + mount;
      PlainLine(line) && Contains(line, HfsPartition) && AfterSecondTab(line) == Some(mount)
  {
    var line := device + HfsPartition + "\t" + mount;
    assert '\n' !in line by {
      assert line == device + (HfsPartition + "\t") + mount;
    }
    if mount == [] {
      assert line[|line| - 1] == '\t';
    } else {
      assert line[|line| - 1] == mount[|mount| - 1];
    }
    ContainsEmbedded(device, HfsPartition, "\t" + mount);
    assert line == device + HfsPartition + ("\t" + mount);
    assert line == device + "\t" + "Apple_HFS" + "\t" + mount;
    AfterSecondTabSplit(device, "Apple_HFS", mount);
  }

  /**
   * Attach output whose first HFS line is `device<TAB>Apple_HFS<TAB>mount` yields `mount`,
   * whatever the lines before (none of them HFS) and after say.
   */
  lemma AttachReportsMount(before: seq<string>, device: string, mount: string, after: seq<string>)
    requires PlainLines(before) && PlainLines(after)
    requires forall i | 0 <= i < |before| :: !Contains(before[i], HfsPartition)
    requires '\t' !in device && '\n' !in device && PlainLine(mount)
    ensures AttachedMount(Render(before + [device + HfsPartition + "\t" + mount] + after)) == Ok(mount)
  {
    var line := device + HfsPartition + "\t" + mount;
    var lines := before + [line] + after;
    HfsLine(device, mount);
    assert PlainLines([line]);
    PlainLinesConcat(before, [line]);
    PlainLinesConcat(before + [line], after);
    RenderRoundTrip(lines);
    FirstContainingAfter(before, line, after, HfsPartition);
    assert lines[|before|] == line;
  }

  // ---------------------------------------------------------------------------
  // list_volumes: the registry of managed volumes
  // ---------------------------------------------------------------------------

  /**
   * The expiry recorded for a mount point: the marker file read through `readFile` (None when
   * reading fails) and parsed as a `u64`.
   */
  function MarkerExpiry(mount: string, readFile: string -> Option<string>): Option<nat> {
    var text := readFile(JoinPath(mount, MarkerFile));
    if text.None? then None else ParseU64(text.value)
  }

  /** The managed volumes among one image's system entities, in entity order. */
  function EntityVolumes(entities: seq<Option<string>>, readFile: string -> Option<string>): seq<Volume> {
    if entities == [] then []
    else
      var e := entities[|entities| - 1];
      EntityVolumes(entities[..|entities| - 1], readFile)
        + (if e.Some? && MarkerExpiry(e.value, readFile).Some?
           then [Volume(e.value, MarkerExpiry(e.value, readFile).value)] else [])
  }

  /** The managed volumes of all images (each a list of entity mount points), in order. */
  function Registry(images: seq<seq<Option<string>>>, readFile: string -> Option<string>): seq<Volume> {
    if images == [] then []
    else Registry(images[..|images| - 1], readFile) + EntityVolumes(images[|images| - 1], readFile)
  }

  /**
   * `list_volumes` over the parsed `hdiutil info -plist` images: keeps each entity that has a
   * mount point whose marker parses, skipping the others without error.
   */
  method ListVolumes(images: seq<seq<Option<string>>>, readFile: string -> Option<string>)
    returns (volumes: seq<Volume>)
    ensures volumes == Registry(images, readFile)
  {
    volumes := [];
    var i := 0;
    while i < |images|
      invariant 0 <= i <= |images|
      invariant volumes == Registry(images[..i], readFile)
    {
      var entities := images[i];
      var j := 0;
      while j < |entities|
        invariant 0 <= j <= |entities|
        invariant volumes == Registry(images[..i], readFile) + EntityVolumes(entities[..j], readFile)
      {
        assert entities[..j + 1][..j] == entities[..j];
        var e := entities[j];
        if e.Some? {
          var ts := MarkerExpiry(e.value, readFile);
          if ts.Some? {
            volumes := volumes + [Volume(e.value, ts.value)];
          }
        }
        j := j + 1;
      }
      assert entities[..j] == entities;
      assert images[..i + 1][..i] == images[..i];
      i := i + 1;
    }
    assert images[..i] == images;
  }

  lemma {:induction false} EntityVolumesAppend(a: seq<Option<string>>, b: seq<Option<string>>,
                                               readFile: string -> Option<string>)
    ensures EntityVolumes(a + b, readFile) == EntityVolumes(a, readFile) + EntityVolumes(b, readFile)
    decreases |b|
  {
    if b == [] {
      assert a + b == a;
    } else {
      var b' := b[..|b| - 1];
      assert (a + b)[..|a + b| - 1] == a + b';
      assert (a + b)[|a + b| - 1] == b[|b| - 1];
      EntityVolumesAppend(a, b', readFile);
    }
  }

  /** The registry of one more image ends with that image's volumes. */
  lemma RegistrySnoc(images: seq<seq<Option<string>>>, entities: seq<Option<string>>,
                     readFile: string -> Option<string>)
    ensures Registry(images + [entities], readFile) == Registry(images, readFile) + EntityVolumes(entities, readFile)
  {
    var s := images + [entities];
    assert s[..|s| - 1] == images;
    assert s[|s| - 1] == entities;
  }

  /** The registry keeps image order, and entity order within an image. */
  lemma {:induction false} RegistryAppend(a: seq<seq<Option<string>>>, b: seq<seq<Option<string>>>,
                                          readFile: string -> Option<string>)
    ensures Registry(a + b, readFile) == Registry(a, readFile) + Registry(b, readFile)
    decreases |b|
  {
    if b == [] {
      assert a + b == a;
    } else {
      var init := b[..|b| - 1];
      var x := b[|b| - 1];
      assert b == init + [x];
      assert a + b == (a + init) + [x];
      RegistryAppend(a, init, readFile);
      RegistrySnoc(a + init, x, readFile);
      RegistrySnoc(init, x, readFile);
      var ra, ri, rx := Registry(a, readFile), Registry(init, readFile), EntityVolumes(x, readFile);
      assert (ra + ri) + rx == ra + (ri + rx);
    }
  }

  /** An entity is listed exactly when it has a mount point and a marker that parses. */
  lemma {:induction false} EntityVolumesExact(entities: seq<Option<string>>, readFile: string -> Option<string>)
    ensures forall v | v in EntityVolumes(entities, readFile) ::
      Some(v.mount) in entities && MarkerExpiry(v.mount, readFile) == Some(v.expires)
    ensures forall i | 0 <= i < |entities| && entities[i].Some? && MarkerExpiry(entities[i].value, readFile).Some? ::
      Volume(entities[i].value, MarkerExpiry(entities[i].value, readFile).value) in EntityVolumes(entities, readFile)
    decreases |entities|
  {
    if entities != [] {
      var init := entities[..|entities| - 1];
      EntityVolumesExact(init, readFile);
      forall i | 0 <= i < |init| ensures entities[i] == init[i] { }
      assert entities == init + [entities[|entities| - 1]];
    }
  }

  /** The expiry a volume shows with is the number its marker holds. */
  lemma {:induction false} RegistryExpiryFromMarker(images: seq<seq<Option<string>>>, readFile: string -> Option<string>)
    ensures forall v | v in Registry(images, readFile) :: MarkerExpiry(v.mount, readFile) == Some(v.expires)
    decreases |images|
  {
    if images != [] {
      RegistryExpiryFromMarker(images[..|images| - 1], readFile);
      EntityVolumesExact(images[|images| - 1], readFile);
    }
  }

  // ---------------------------------------------------------------------------
  // secure_volume: the expiry marker
  // ---------------------------------------------------------------------------

  /** The effects of securing: all on the mounted volume. */
  predicate VolumeEffect(a: Action) {
    a.WriteFile? || a.CopyIcon? || a.SetCustomIcon? || a.DisableIndexing?
  }

  /** `now + days * 86400`, in whole seconds. */
  function ExpiryAfter(now: nat, days: nat): nat {
    now + days * SecondsPerDay
  }

  /**
   * `secure_volume`: writes `.metadata_never_index`, then the marker holding the decimal expiry,
   * copies the volume icon (a failed copy only skips `SetFile`), then turns indexing off. The
   * first failing step other than the icon copy ends the run with an I/O error.
   */
  function SecureVolume(mount: string, days: nat, now: nat, fails: Action -> bool): Run<()>
  {
    var goodUntil := ExpiryAfter(now, days);
    var neverIndex := WriteFile(JoinPath(mount, NeverIndexFile), "");
    var marker := WriteFile(JoinPath(mount, MarkerFile), Decimal(goodUntil));
    var copy := CopyIcon(JoinPath(mount, IconFile));
    var setFile := SetCustomIcon(mount);
    var mdutil := DisableIndexing(mount);
    if fails(neverIndex) then Run([neverIndex], Err(Io))
    else if fails(marker) then Run([neverIndex, marker], Err(Io))
    else if !fails(copy) && fails(setFile) then Run([neverIndex, marker, copy, setFile], Err(Io))
    else
      var icon := if fails(copy) then [copy] else [copy, setFile];
      Run([neverIndex, marker] + icon + [mdutil], if fails(mdutil) then Err(Io) else Ok(()))
  }

  /**
   * A run of `secure_volume` starts by writing `.metadata_never_index` and then the marker with
   * the decimal expiry; a successful one has written the marker and ends with `mdutil`.
   */
  lemma SecureVolumeOrder(mount: string, days: nat, now: nat, fails: Action -> bool)
    ensures var run := SecureVolume(mount, days, now, fails);
      && run.trace != [] && run.trace[0] == WriteFile(JoinPath(mount, NeverIndexFile), "")
      && (|run.trace| > 1 ==>
            run.trace[1] == WriteFile(JoinPath(mount, MarkerFile), Decimal(ExpiryAfter(now, days))))
      && (run.result.Ok? ==> |run.trace| > 1)
      && (run.result.Ok? ==> run.trace[|run.trace| - 1] == DisableIndexing(mount))
  {
  }

  /** `secure_volume` sets the custom icon only right after copying the icon succeeded. */
  lemma SecureVolumeIcon(mount: string, days: nat, now: nat, fails: Action -> bool)
    ensures var run := SecureVolume(mount, days, now, fails);
      SetCustomIcon(mount) in run.trace ==>
        |run.trace| > 2 && run.trace[2] == CopyIcon(JoinPath(mount, IconFile)) && !fails(run.trace[2])
  {
  }

  /** `secure_volume` touches nothing but the volume. */
  lemma SecureVolumeOnVolume(mount: string, days: nat, now: nat, fails: Action -> bool)
    ensures var run := SecureVolume(mount, days, now, fails);
      forall i | 0 <= i < |run.trace| :: VolumeEffect(run.trace[i])
  {
  }

  /** Convenience for callers: the order, icon and on-volume facts of `secure_volume` in one lemma. */
  lemma SecureVolumeSteps(mount: string, days: nat, now: nat, fails: Action -> bool)
    ensures var run := SecureVolume(mount, days, now, fails);
      && run.trace != [] && run.trace[0] == WriteFile(JoinPath(mount, NeverIndexFile), "")
      && (|run.trace| > 1 ==>
            run.trace[1] == WriteFile(JoinPath(mount, MarkerFile), Decimal(ExpiryAfter(now, days))))
      && (run.result.Ok? ==> |run.trace| > 1)
      && (run.result.Ok? ==> run.trace[|run.trace| - 1] == DisableIndexing(mount))
      && (SetCustomIcon(mount) in run.trace ==>
            |run.trace| > 2 && run.trace[2] == CopyIcon(JoinPath(mount, IconFile)) && !fails(run.trace[2]))
      && (forall i | 0 <= i < |run.trace| :: VolumeEffect(run.trace[i]))
  {
    SecureVolumeOrder(mount, days, now, fails);
    SecureVolumeIcon(mount, days, now, fails);
    SecureVolumeOnVolume(mount, days, now, fails);
  }

  /**
   * A run of `secure_volume` stops at its first failure (a failed icon copy is not one), and it
   * fails exactly when its last effect failed, then with an I/O error.
   */
  lemma SecureVolumeStops(mount: string, days: nat, now: nat, fails: Action -> bool)
    ensures var run := SecureVolume(mount, days, now, fails);
      && StopsAtFirstFailure(run.trace, fails)
      && (run.result.Err? <==> EndedByFailure(run.trace, fails))
      && (run.result.Err? ==> run.result.error == Io)
      && (run.result.Ok? ==> Succeeded(run.trace, fails))
  {
    var run := SecureVolume(mount, days, now, fails);
    StopsIff(run.trace, fails);
    SucceededIff(run.trace, fails);
  }

  /**
   * Round trip of the marker: once `secure_volume` has written an expiry that fits a `u64`,
   * the registry reads the same number of seconds back from it.
   */
  lemma MarkerRoundTrip(mount: string, now: nat, days: nat, readFile: string -> Option<string>)
    requires ExpiryAfter(now, days) <= U64_MAX
    requires readFile(JoinPath(mount, MarkerFile)) == Some(Decimal(ExpiryAfter(now, days)))
    ensures MarkerExpiry(mount, readFile) == Some(ExpiryAfter(now, days))
  {
    DecimalRoundTrip(ExpiryAfter(now, days));
  }

  /** A secured volume that is mounted is listed, with the expiry that was written. */
  lemma SecuredVolumeIsListed(before: seq<Option<string>>, mount: string, after: seq<Option<string>>,
                              now: nat, days: nat, readFile: string -> Option<string>)
    requires ExpiryAfter(now, days) <= U64_MAX
    requires readFile(JoinPath(mount, MarkerFile)) == Some(Decimal(ExpiryAfter(now, days)))
    ensures Volume(mount, ExpiryAfter(now, days)) in Registry([before + [Some(mount)] + after], readFile)
  {
    MarkerRoundTrip(mount, now, days, readFile);
    var entities := before + [Some(mount)] + after;
    assert entities[|before|] == Some(mount);
    EntityVolumesExact(entities, readFile);
    assert [entities][..0] == [];
  }
}
