/**
 * The external effects the program performs through `hdiutil`, `7z`, `SetFile`, `mdutil`, the
 * password prompt and the file system. A run is modelled by the sequence of effects it
 * attempts; which of them report an error is an input (`fails`).
 */
module Effects {
  import opened Outcomes

  datatype Action =
    | Prompt                                                              // dialoguer password prompt
    | CreateImage(image: string, volume: string, size: nat, password: string) // hdiutil create
    | AttachImage(image: string, password: string)                         // hdiutil attach
    | WriteFile(path: string, contents: string)                            // fs::write
    | CopyIcon(target: string)                                             // fs::copy of the volume icon
    | SetCustomIcon(mount: string)                                         // SetFile -a C
    | DisableIndexing(mount: string)                                       // mdutil -E -i off
    | ListArchive(archive: string)                                         // 7z l
    | TestArchive(archive: string, password: string)                       // 7z t
    | ExtractArchive(archive: string, into: string, password: string)      // 7z x
    | RemoveImage(image: string)                                           // fs::remove_file

  /** What a run did and how it ended. */
  datatype Run<+T> = Run(trace: seq<Action>, result: Result<T>)

  /** Only a failed icon copy is ignored; every other failure ends the run. */
  predicate Tolerated(a: Action) {
    a.CopyIcon?
  }

  /** Effect `a` succeeded, or it failed and its failure is ignored. */
  predicate Survives(a: Action, fails: Action -> bool) {
    !fails(a) || Tolerated(a)
  }

  /**
   * A run stops at its first failure: every effect before the last one succeeded or had its
   * failure ignored (`StopsIff`).
   */
  predicate StopsAtFirstFailure(trace: seq<Action>, fails: Action -> bool)
    decreases |trace|
  {
    |trace| <= 1 || (Survives(trace[0], fails) && StopsAtFirstFailure(trace[1..], fails))
  }

  /** Every effect of the trace succeeded or had its failure ignored (`SucceededIff`). */
  predicate Succeeded(trace: seq<Action>, fails: Action -> bool)
    decreases |trace|
  {
    trace == [] || (Survives(trace[0], fails) && Succeeded(trace[1..], fails))
  }

  /** The run ended because its last effect failed. */
  predicate EndedByFailure(trace: seq<Action>, fails: Action -> bool) {
    trace != [] && !Survives(trace[|trace| - 1], fails)
  }

  /** Effect `a` was attempted before effect `b`. */
  predicate Before(trace: seq<Action>, a: Action, b: Action) {
    exists i, j | 0 <= i < j < |trace| :: trace[i] == a && trace[j] == b
  }

  lemma {:induction false} StopsIff(trace: seq<Action>, fails: Action -> bool)
    ensures StopsAtFirstFailure(trace, fails) <==> forall i | 0 <= i < |trace| - 1 :: Survives(trace[i], fails)
    decreases |trace|
  {
    if |trace| > 1 {
      StopsIff(trace[1..], fails);
      assert forall i | 0 < i < |trace| :: trace[i] == trace[1..][i - 1];
    }
  }

  lemma {:induction false} SucceededIff(trace: seq<Action>, fails: Action -> bool)
    ensures Succeeded(trace, fails) <==> forall i | 0 <= i < |trace| :: Survives(trace[i], fails)
    decreases |trace|
  {
    if trace != [] {
      SucceededIff(trace[1..], fails);
      assert forall i | 0 < i < |trace| :: trace[i] == trace[1..][i - 1];
    }
  }

  /** A trace that succeeded throughout also stops at its first failure, which it does not have. */
  lemma {:induction false} SucceededStops(trace: seq<Action>, fails: Action -> bool)
    requires Succeeded(trace, fails)
    ensures StopsAtFirstFailure(trace, fails) && !EndedByFailure(trace, fails)
    decreases |trace|
  {
    if trace != [] {
      SucceededStops(trace[1..], fails);
      if |trace| > 1 {
        assert trace[|trace| - 1] == trace[1..][|trace[1..]| - 1];
      }
    }
  }

  /** Running `b` after the successful steps `a` still stops at the first failure, where `b` stops. */
  lemma {:induction false} ContinueAfter(a: seq<Action>, b: seq<Action>, fails: Action -> bool)
    requires Succeeded(a, fails) && StopsAtFirstFailure(b, fails)
    ensures StopsAtFirstFailure(a + b, fails)
    ensures Succeeded(b, fails) ==> Succeeded(a + b, fails)
    ensures b != [] ==> EndedByFailure(a + b, fails) == EndedByFailure(b, fails)
    decreases |a|
  {
    if a == [] {
      assert a + b == b;
    } else {
      ContinueAfter(a[1..], b, fails);
      assert (a + b)[1..] == a[1..] + b;
      assert (a + b)[0] == a[0];
    }
    if b != [] {
      LastOfAppend(a, b);
    }
  }

  /** One step followed by a run that stops at its first failure. */
  lemma StopsCons(x: Action, b: seq<Action>, fails: Action -> bool)
    requires Survives(x, fails) && StopsAtFirstFailure(b, fails)
    ensures StopsAtFirstFailure([x] + b, fails)
    ensures Succeeded(b, fails) ==> Succeeded([x] + b, fails)
    ensures b != [] ==> EndedByFailure([x] + b, fails) == EndedByFailure(b, fails)
  {
    assert ([x] + b)[1..] == b;
    if b != [] {
      assert ([x] + b)[|b|] == b[|b| - 1];
    }
  }

  /** Steps that all succeeded, followed by one more step. */
  lemma SucceededSnoc(a: seq<Action>, x: Action, fails: Action -> bool)
    requires Succeeded(a, fails)
    ensures StopsAtFirstFailure(a + [x], fails)
    ensures EndedByFailure(a + [x], fails) <==> !Survives(x, fails)
    ensures Survives(x, fails) ==> Succeeded(a + [x], fails)
  {
    assert Succeeded([x], fails) <==> Survives(x, fails) by {
      assert [x][1..] == [];
    }
    ContinueAfter(a, [x], fails);
  }

  /** An effect of `a` comes before an effect of `b` in `a + b`. */
  lemma BeforeAppend(a: seq<Action>, b: seq<Action>, x: Action, y: Action)
    requires x in a && y in b
    ensures Before(a + b, x, y)
  {
    var i :| 0 <= i < |a| && a[i] == x;
    var j :| 0 <= j < |b| && b[j] == y;
    assert (a + b)[i] == x && (a + b)[|a| + j] == y;
  }

  /** Order is kept when a run is preceded by more effects. */
  lemma BeforePrepend(p: seq<Action>, t: seq<Action>, x: Action, y: Action)
    requires Before(t, x, y)
    ensures Before(p + t, x, y)
  {
    var i, j :| 0 <= i < j < |t| && t[i] == x && t[j] == y;
    assert (p + t)[|p| + i] == x && (p + t)[|p| + j] == y;
  }
}
