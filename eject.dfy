/**
 * Volume selection of `eject_command` (src/main.rs): which managed volumes are ejected, in
 * which order, and when the run ends with "volume was not mounted". The registry listing, the
 * clock and `fs::canonicalize` are inputs; `canonical(p)` is None when canonicalising fails.
 */
module Eject {
  import opened Outcomes
  import opened Dmg

  datatype EjectArgs = EjectArgs(all: bool, expired: bool, path: Option<string>)

  const NotMounted: string := "volume was not mounted"

  /** The canonical form of the requested path, when one was given and it canonicalises. */
  function ReferencePath(args: EjectArgs, canonical: string -> Option<string>): Option<string> {
    if args.path.Some? then canonical(args.path.value) else None
  }

  /** Strictly before now: a volume expiring exactly now is not expired. */
  predicate IsExpired(v: Volume, now: nat) {
    v.expires < now
  }

  /** The volume's canonical mount point equals the canonical requested path. */
  predicate IsMatch(v: Volume, reference: Option<string>, canonical: string -> Option<string>) {
    reference.Some? && canonical(v.mount) == reference
  }

  /** The selection modes combine with OR. */
  predicate Selected(v: Volume, args: EjectArgs, now: nat, canonical: string -> Option<string>) {
    (args.expired && IsExpired(v, now)) || args.all || IsMatch(v, ReferencePath(args, canonical), canonical)
  }

  /** The mount points ejected, in registry order. */
  function Ejections(volumes: seq<Volume>, args: EjectArgs, now: nat, canonical: string -> Option<string>): seq<string> {
    if volumes == [] then []
    else
      var v := volumes[|volumes| - 1];
      Ejections(volumes[..|volumes| - 1], args, now, canonical)
        + (if Selected(v, args, now, canonical) then [v.mount] else [])
  }

  predicate AnyMatch(volumes: seq<Volume>, reference: Option<string>, canonical: string -> Option<string>) {
    exists i | 0 <= i < |volumes| :: IsMatch(volumes[i], reference, canonical)
  }

  /**
   * `eject_command`: ejects every selected volume in order, then fails with "volume was not
   * mounted" exactly when a path was given and no volume matched it, including when the path
   * itself does not canonicalise. Ejections happen before that failure.
   */
  method EjectCommand(volumes: seq<Volume>, args: EjectArgs, now: nat, canonical: string -> Option<string>)
    returns (ejected: seq<string>, r: Result<()>)
    ensures ejected == Ejections(volumes, args, now, canonical)
    ensures r.Err? <==> args.path.Some? && !AnyMatch(volumes, ReferencePath(args, canonical), canonical)
    ensures r.Err? ==> r.error == Bail(NotMounted)
  {
    var reference := ReferencePath(args, canonical);
    var imageFound := false;
    ejected := [];
    var i := 0;
    while i < |volumes|
      invariant 0 <= i <= |volumes|
      invariant ejected == Ejections(volumes[..i], args, now, canonical)
      invariant imageFound <==> AnyMatch(volumes[..i], reference, canonical)
    {
      var v := volumes[i];
      assert volumes[..i + 1] == volumes[..i] + [v];
      EjectStep(volumes[..i], v, args, now, canonical);
      var expired := v.expires < now;
      var isMatch := reference.Some? && canonical(v.mount) == reference;
      if (args.expired && expired) || args.all || isMatch {
        ejected := ejected + [v.mount];
      }
      if isMatch {
        imageFound := true;
      }
      i := i + 1;
    }
    assert volumes[..i] == volumes;
    if !imageFound && args.path.Some? {
      return ejected, Err(Bail(NotMounted));
    }
    return ejected, Ok(());
  }

  /** One step of the eject loop: the selection and the match flag grow by the next volume. */
  lemma EjectStep(done: seq<Volume>, v: Volume, args: EjectArgs, now: nat, canonical: string -> Option<string>)
    ensures Ejections(done + [v], args, now, canonical)
      == Ejections(done, args, now, canonical) + (if Selected(v, args, now, canonical) then [v.mount] else [])
    ensures AnyMatch(done + [v], ReferencePath(args, canonical), canonical)
      == (AnyMatch(done, ReferencePath(args, canonical), canonical) || IsMatch(v, ReferencePath(args, canonical), canonical))
  {
    assert (done + [v])[..|done|] == done;
    AnyMatchSnoc(done, v, ReferencePath(args, canonical), canonical);
  }

  lemma AnyMatchSnoc(volumes: seq<Volume>, v: Volume, reference: Option<string>, canonical: string -> Option<string>)
    ensures AnyMatch(volumes + [v], reference, canonical)
      == (AnyMatch(volumes, reference, canonical) || IsMatch(v, reference, canonical))
  {
    var s := volumes + [v];
    if IsMatch(v, reference, canonical) {
      assert s[|volumes|] == v;
    }
    if AnyMatch(volumes, reference, canonical) {
      var i :| 0 <= i < |volumes| && IsMatch(volumes[i], reference, canonical);
      assert s[i] == volumes[i];
    }
    if AnyMatch(s, reference, canonical) && !IsMatch(v, reference, canonical) {
      var i :| 0 <= i < |s| && IsMatch(s[i], reference, canonical);
      assert s[i] == volumes[i];
    }
  }

  // ---------------------------------------------------------------------------
  // Properties of the selection
  // ---------------------------------------------------------------------------

  /** Selection keeps registry order: it distributes over concatenation. */
  lemma {:induction false} EjectionsAppend(a: seq<Volume>, b: seq<Volume>, args: EjectArgs, now: nat,
                                           canonical: string -> Option<string>)
    ensures Ejections(a + b, args, now, canonical)
      == Ejections(a, args, now, canonical) + Ejections(b, args, now, canonical)
    decreases |b|
  {
    if b == [] {
      assert a + b == a;
    } else {
      var b' := b[..|b| - 1];
      assert (a + b)[..|a + b| - 1] == a + b';
      assert (a + b)[|a + b| - 1] == b[|b| - 1];
      EjectionsAppend(a, b', args, now, canonical);
    }
  }

  /** A volume is ejected exactly when one of the criteria selects it. */
  lemma {:induction false} EjectedIffSelected(volumes: seq<Volume>, args: EjectArgs, now: nat,
                                              canonical: string -> Option<string>)
    ensures forall i | 0 <= i < |volumes| && Selected(volumes[i], args, now, canonical) ::
      volumes[i].mount in Ejections(volumes, args, now, canonical)
    ensures forall m | m in Ejections(volumes, args, now, canonical) ::
      exists i | 0 <= i < |volumes| :: volumes[i].mount == m && Selected(volumes[i], args, now, canonical)
    decreases |volumes|
  {
    if volumes != [] {
      var init := volumes[..|volumes| - 1];
      var v := volumes[|volumes| - 1];
      EjectedIffSelected(init, args, now, canonical);
      forall i | 0 <= i < |init| ensures volumes[i] == init[i] { }
    }
  }

  /**
   * With an explicit path (which the command line does not allow together with `--all` or
   * `--expired`) exactly the matching volumes are ejected.
   */
  lemma {:induction false} PathEjectsOnlyMatches(volumes: seq<Volume>, args: EjectArgs, now: nat,
                                                 canonical: string -> Option<string>)
    requires args.path.Some? && !args.all && !args.expired
    ensures |Ejections(volumes, args, now, canonical)| > 0 <==> AnyMatch(volumes, ReferencePath(args, canonical), canonical)
    decreases |volumes|
  {
    if volumes != [] {
      var init := volumes[..|volumes| - 1];
      var v := volumes[|volumes| - 1];
      assert volumes == init + [v];
      PathEjectsOnlyMatches(init, args, now, canonical);
      AnyMatchSnoc(init, v, ReferencePath(args, canonical), canonical);
    }
  }

  /** `--all` ejects every managed volume, in registry order. */
  lemma {:induction false} AllEjectsEverything(volumes: seq<Volume>, args: EjectArgs, now: nat,
                                               canonical: string -> Option<string>)
    requires args.all
    ensures Ejections(volumes, args, now, canonical) == seq(|volumes|, i requires 0 <= i < |volumes| => volumes[i].mount)
    decreases |volumes|
  {
    if volumes != [] {
      var init := volumes[..|volumes| - 1];
      AllEjectsEverything(init, args, now, canonical);
    }
  }

  /**
   * Volume A has expired and volume B has not: `--expired` ejects only A, `--all` both in
   * order, B's canonical path ejects only B without error, and a path that matches none of
   * them fails after ejecting nothing.
   */
  lemma ExpiredAllAndPathScenario(a: string, b: string, other: string, canonical: string -> Option<string>)
    requires canonical(a) == Some(a) && canonical(b) == Some(b) && canonical(other) == Some(other)
    requires a != b && other != a && other != b
    ensures var vols := [Volume(a, 10), Volume(b, 30)];
      && Ejections(vols, EjectArgs(false, true, None), 20, canonical) == [a]
      && Ejections(vols, EjectArgs(true, false, None), 20, canonical) == [a, b]
      && Ejections(vols, EjectArgs(false, false, Some(b)), 20, canonical) == [b]
      && AnyMatch(vols, ReferencePath(EjectArgs(false, false, Some(b)), canonical), canonical)
      && Ejections(vols, EjectArgs(false, false, Some(other)), 20, canonical) == []
      && !AnyMatch(vols, ReferencePath(EjectArgs(false, false, Some(other)), canonical), canonical)
  {
    var va, vb := Volume(a, 10), Volume(b, 30);
    var vols := [va, vb];
    assert vols == [va] + [vb];
    assert [va][..0] == [] && [vb][..0] == [];
    EjectionsAppend([va], [vb], EjectArgs(false, true, None), 20, canonical);
    EjectionsAppend([va], [vb], EjectArgs(true, false, None), 20, canonical);
    EjectionsAppend([va], [vb], EjectArgs(false, false, Some(b)), 20, canonical);
    EjectionsAppend([va], [vb], EjectArgs(false, false, Some(other)), 20, canonical);
    var ref := ReferencePath(EjectArgs(false, false, Some(b)), canonical);
    assert IsMatch(vols[1], ref, canonical);
    var ref' := ReferencePath(EjectArgs(false, false, Some(other)), canonical);
    assert !IsMatch(vols[0], ref', canonical) && !IsMatch(vols[1], ref', canonical);
  }
}
