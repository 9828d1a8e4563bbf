/** The install path of `MetadataUtil`: the per-package version gate
    `installMetadataPackageIfNecessary`, the batch `loadPackages` that ORs
    its results over the catalog, and `setupSpecificMetadata`, which narrows
    the catalog first. */
module Install {
  import opened Wrappers
  import opened PackageFilename
  import opened Catalog

  /** The installed-package store: group uuid to the version of the package
      imported for that group. A successful import records the group with the
      version read from the file name. */
  type Store = map<string, int>

  /** What one call of the gate does. Only `Imported` returns true; only
      `MissingVersion` escapes the call as an exception, because the file
      name is built before the `try`. */
  datatype Step =
    | Imported(group: string, version: Int32)
    | AlreadyInstalled(installedVersion: int)
    | BadFilename(filename: string)
    | BadVersionNumber(filename: string)
    | MissingArtifact(filename: string)
    | ImportFailed(filename: string)
    | MissingVersion

  /** The derived file name of `pkg` passes the pattern: its version is not
      negative and its base is a word, optionally under a directory. */
  predicate WellNamed(pkg: PackageConfig) {
    pkg.version.Some? && 0 <= pkg.version.value && IsPackageStem(pkg.filenameBase)
  }

  /** The group of `pkg` already holds this version or a later one. */
  predicate UpToDate(pkg: PackageConfig, installed: Store)
    requires pkg.version.Some?
  {
    pkg.groupUuid in installed && installed[pkg.groupUuid] >= pkg.version.value
  }

  /** `installMetadataPackageIfNecessary(pkg, loader)`. Its decision table
      is `InstallDecision`. */
  function InstallIfNecessary(pkg: PackageConfig, installed: Store, env: Environment): (r: Step)
    ensures r.MissingVersion? <==> pkg.version.None?
    ensures r.Imported? ==>
      && r.group == pkg.groupUuid && Some(r.version) == pkg.version
      && !(r.group in installed && installed[r.group] >= r.version)
  {
    match pkg.version
    case None => MissingVersion
    case Some(v) =>
      var filename := FilenameOf(pkg.filenameBase, v);
      FilenameOfMatches(pkg.filenameBase, v);
      match MatchPackageFilename(filename)
      case None => BadFilename(filename)
      case Some(digits) =>
        FileVersionRoundTrip(v);
        match IntegerValueOf(digits)
        case None => BadVersionNumber(filename)
        case Some(fileVersion) =>
          if pkg.groupUuid in installed && installed[pkg.groupUuid] >= fileVersion then
            AlreadyInstalled(installed[pkg.groupUuid])
          else if filename !in env.resources then
            MissingArtifact(filename)
          else if env.load(pkg.importMode, filename).Some? && env.commits(pkg.importMode, filename) then
            Imported(pkg.groupUuid, fileVersion)
          else
            ImportFailed(filename)
  }

  /** Which way the gate goes, in terms of the configured base and version
      rather than the pattern: a package is skipped exactly when its name is
      acceptable and its group already holds that version, so the importer is
      never consulted then; it is imported exactly when the name is
      acceptable, the group is behind, the file exists and the importer loads
      and commits it; the version parse never fails. */
  lemma InstallDecision(pkg: PackageConfig, installed: Store, env: Environment)
    ensures var r := InstallIfNecessary(pkg, installed, env);
      && (r.AlreadyInstalled? <==> WellNamed(pkg) && UpToDate(pkg, installed))
      && !r.BadVersionNumber?
      && (pkg.version.Some? ==>
        var f := FilenameOf(pkg.filenameBase, pkg.version.value);
        && (r.BadFilename? <==> !WellNamed(pkg))
        && (r.MissingArtifact? <==> WellNamed(pkg) && !UpToDate(pkg, installed) && f !in env.resources)
        && (r.ImportFailed? <==>
              && WellNamed(pkg) && !UpToDate(pkg, installed) && f in env.resources
              && !(env.load(pkg.importMode, f).Some? && env.commits(pkg.importMode, f)))
        && (r.Imported? <==>
              && WellNamed(pkg) && !UpToDate(pkg, installed) && f in env.resources
              && env.load(pkg.importMode, f).Some? && env.commits(pkg.importMode, f)))
  {
    if pkg.version.Some? {
      var v := pkg.version.value;
      var f := FilenameOf(pkg.filenameBase, v);
      var r := InstallIfNecessary(pkg, installed, env);
      FilenameOfMatches(pkg.filenameBase, v);
      if WellNamed(pkg) {
        FileVersionRoundTrip(v);
        assert MatchPackageFilename(f) == Some(Digits(v));
        assert IntegerValueOf(Digits(v)) == Some(v);
        if UpToDate(pkg, installed) {
          assert r == AlreadyInstalled(installed[pkg.groupUuid]);
        } else if f !in env.resources {
          assert r == MissingArtifact(f);
        } else if env.load(pkg.importMode, f).Some? && env.commits(pkg.importMode, f) {
          assert r == Imported(pkg.groupUuid, v);
        } else {
          assert r == ImportFailed(f);
        }
      } else {
        assert MatchPackageFilename(f).None?;
        assert r == BadFilename(f);
      }
    }
  }

  /** A package whose group is up to date is skipped whatever the
      resources and the importer would do: neither is consulted. */
  lemma UpToDateNeedsNoImporter(pkg: PackageConfig, installed: Store, env: Environment, other: Environment)
    requires WellNamed(pkg) && UpToDate(pkg, installed)
    ensures InstallIfNecessary(pkg, installed, env) == InstallIfNecessary(pkg, installed, other)
    ensures InstallIfNecessary(pkg, installed, env) == AlreadyInstalled(installed[pkg.groupUuid])
  {
    UpToDateSkips(pkg, installed, env);
    UpToDateSkips(pkg, installed, other);
  }

  lemma UpToDateSkips(pkg: PackageConfig, installed: Store, env: Environment)
    requires WellNamed(pkg) && UpToDate(pkg, installed)
    ensures InstallIfNecessary(pkg, installed, env) == AlreadyInstalled(installed[pkg.groupUuid])
  {
    var v := pkg.version.value;
    FilenameOfMatches(pkg.filenameBase, v);
    FileVersionRoundTrip(v);
  }

  /** The store after a step: an import records its group and version. */
  function Record(s: Step, installed: Store): Store {
    if s.Imported? then installed[s.group := s.version] else installed
  }

  /** Every group of `before` is in `after` with at least the same version. */
  ghost predicate Dominates(after: Store, before: Store) {
    forall g :: g in before ==> g in after && after[g] >= before[g]
  }

  /** Groups whose entry differs between `before` and `after` belong to some
      package of `pkgs`. */
  ghost predicate ChangedOnlyBy(before: Store, after: Store, pkgs: seq<PackageConfig>) {
    forall g :: g in after && !(g in before && before[g] == after[g]) ==>
      exists i :: 0 <= i < |pkgs| && pkgs[i].groupUuid == g
  }

  // ---------------------------------------------------------------------------
  // The batch, over any gate that obeys the laws the real one obeys

  /** A per-package decision against the current store. */
  type Gate = (PackageConfig, Store) -> Step

  /** The gate `loadPackages` uses. */
  function GateOf(env: Environment): Gate {
    (pkg, installed) => InstallIfNecessary(pkg, installed, env)
  }

  /** What the batch theorems need of a gate: it raises exactly for packages
      without a version; it imports only a package's own group at the
      configured version and only when that group is behind; and a package it
      does not import stays unimported against any store that is ahead. */
  ghost predicate Lawful(gate: Gate) {
    && (forall p, st :: gate(p, st).MissingVersion? <==> p.version.None?)
    && (forall p, st :: gate(p, st).Imported? ==>
          && gate(p, st).group == p.groupUuid
          && Some(gate(p, st).version) == p.version
          && !UpToDate(p, st))
    && (forall p, a, b :: Dominates(b, a) && !gate(p, a).Imported? ==> !gate(p, b).Imported?)
  }

  /** The real gate obeys the laws. */
  lemma GateOfLawful(env: Environment)
    ensures Lawful(GateOf(env))
  {
    var gate := GateOf(env);
    forall p, a, b | Dominates(b, a) && !gate(p, a).Imported?
      ensures !gate(p, b).Imported?
    {
      InstallDecision(p, a, env);
      InstallDecision(p, b, env);
    }
  }

  /** The gate results of a batch in catalog order, each against the store the
      earlier packages left, and the store after them. */
  datatype Replayed = Replayed(steps: seq<Step>, installed: Store)

  /** The batch stopped: its last step raised out of the loop. */
  predicate Stopped(r: Replayed) {
    |r.steps| > 0 && r.steps[|r.steps| - 1].MissingVersion?
  }

  /** The first `n` packages of the batch `pkgs` run from `installed`, up to
      and including the first one without a version. */
  function Replay(pkgs: seq<PackageConfig>, n: nat, installed: Store, gate: Gate): (r: Replayed)
    requires n <= |pkgs|
    ensures |r.steps| <= n
  {
    if n == 0 then Replayed([], installed)
    else
      var p := Replay(pkgs, n - 1, installed, gate);
      if Stopped(p) then p
      else
        var s := gate(pkgs[n - 1], p.installed);
        Replayed(p.steps + [s], Record(s, p.installed))
  }

  /** Once stopped, the batch stays stopped: later packages are not looked at. */
  lemma {:induction false} StoppedStays(pkgs: seq<PackageConfig>, m: nat, n: nat, installed: Store, gate: Gate)
    requires m <= n <= |pkgs|
    requires Stopped(Replay(pkgs, m, installed, gate))
    ensures Replay(pkgs, n, installed, gate) == Replay(pkgs, m, installed, gate)
    decreases n - m
  {
    if m < n {
      StoppedStays(pkgs, m, n - 1, installed, gate);
    }
  }

  /** With every version present the batch looks at every package, one step
      each, and none of them raises. */
  lemma {:induction false} ReplayRunsAll(pkgs: seq<PackageConfig>, n: nat, installed: Store, gate: Gate)
    requires Lawful(gate)
    requires n <= |pkgs|
    requires forall i :: 0 <= i < n ==> pkgs[i].version.Some?
    ensures var r := Replay(pkgs, n, installed, gate);
      |r.steps| == n && forall i :: 0 <= i < n ==> !r.steps[i].MissingVersion?
  {
    if n > 0 {
      ReplayRunsAll(pkgs, n - 1, installed, gate);
      var p := Replay(pkgs, n - 1, installed, gate);
      var s := gate(pkgs[n - 1], p.installed);
      assert !s.MissingVersion?;
      assert forall i :: 0 <= i < n - 1 ==> (p.steps + [s])[i] == p.steps[i];
    }
  }

  /** The store only grows along a batch, and only for groups of its
      packages. */
  lemma {:induction false} ReplayGrowsStore(pkgs: seq<PackageConfig>, n: nat, installed: Store, gate: Gate)
    requires Lawful(gate)
    requires n <= |pkgs|
    ensures Dominates(Replay(pkgs, n, installed, gate).installed, installed)
    ensures ChangedOnlyBy(installed, Replay(pkgs, n, installed, gate).installed, pkgs)
  {
    if n > 0 {
      ReplayGrowsStore(pkgs, n - 1, installed, gate);
      var p := Replay(pkgs, n - 1, installed, gate);
      if !Stopped(p) {
        var s := gate(pkgs[n - 1], p.installed);
        var after := Record(s, p.installed);
        forall g | g in after && !(g in installed && installed[g] == after[g])
          ensures exists i :: 0 <= i < |pkgs| && pkgs[i].groupUuid == g
        {
          if !(g in p.installed && p.installed[g] == after[g]) {
            assert pkgs[n - 1].groupUuid == g;
          }
        }
      }
    }
  }

  /** After a batch that did not stop, no package of it would be imported
      against the store it left. */
  lemma {:induction false} ReplaySettles(pkgs: seq<PackageConfig>, n: nat, installed: Store, gate: Gate)
    requires Lawful(gate)
    requires n <= |pkgs|
    requires forall i :: 0 <= i < n ==> pkgs[i].version.Some?
    ensures forall i :: 0 <= i < n ==> !gate(pkgs[i], Replay(pkgs, n, installed, gate).installed).Imported?
  {
    if n > 0 {
      ReplaySettles(pkgs, n - 1, installed, gate);
      ReplayRunsAll(pkgs, n - 1, installed, gate);
      var p := Replay(pkgs, n - 1, installed, gate);
      assert !Stopped(p);
      var s := gate(pkgs[n - 1], p.installed);
      var after := Record(s, p.installed);
      assert Replay(pkgs, n, installed, gate).installed == after;
      assert Dominates(after, p.installed);
      assert !gate(pkgs[n - 1], after).Imported? by {
        if !s.Imported? {
          assert after == p.installed;
        } else {
          assert UpToDate(pkgs[n - 1], after);
        }
      }
    }
  }

  /** A batch in which no package would be imported against the start store
      imports nothing and leaves the store as it was. */
  lemma {:induction false} QuietReplay(pkgs: seq<PackageConfig>, n: nat, installed: Store, gate: Gate)
    requires Lawful(gate)
    requires n <= |pkgs|
    requires forall i :: 0 <= i < n ==> pkgs[i].version.Some? && !gate(pkgs[i], installed).Imported?
    ensures var r := Replay(pkgs, n, installed, gate);
      r.installed == installed && forall i :: 0 <= i < |r.steps| ==> !r.steps[i].Imported?
  {
    if n > 0 {
      QuietReplay(pkgs, n - 1, installed, gate);
      ReplayRunsAll(pkgs, n - 1, installed, gate);
      var p := Replay(pkgs, n - 1, installed, gate);
      assert !Stopped(p);
      var s := gate(pkgs[n - 1], installed);
      assert forall i :: 0 <= i < n - 1 ==> (p.steps + [s])[i] == p.steps[i];
    }
  }

  /** Running the same batch again from the store the first run left imports
      nothing and changes nothing, for any lawful gate. */
  lemma SecondReplayIsQuiet(pkgs: seq<PackageConfig>, installed: Store, gate: Gate)
    requires Lawful(gate)
    requires forall i :: 0 <= i < |pkgs| ==> pkgs[i].version.Some?
    ensures var first := Replay(pkgs, |pkgs|, installed, gate);
      var second := Replay(pkgs, |pkgs|, first.installed, gate);
      second.installed == first.installed
      && forall i :: 0 <= i < |second.steps| ==> !second.steps[i].Imported?
  {
    var first := Replay(pkgs, |pkgs|, installed, gate);
    ReplaySettles(pkgs, |pkgs|, installed, gate);
    QuietReplay(pkgs, |pkgs|, first.installed, gate);
  }

  // ---------------------------------------------------------------------------
  // The entry points

  /** The outcome of `loadPackages`: the accumulated flag, or the position of
      the package whose missing version raised out of the loop. Either way
      the store keeps what was imported. */
  datatype BatchRun =
    | Finished(anyChanges: bool, installed: Store)
    | Aborted(failedAt: nat, installed: Store)

  /** One more package of the batch, past the loop's invariant. */
  lemma Advance(pkgs: seq<PackageConfig>, i: nat, installed: Store, gate: Gate, done: seq<Step>, store: Store, any: bool)
    requires Lawful(gate)
    requires i < |pkgs| && |done| == i && pkgs[i].version.Some?
    requires Replay(pkgs, i, installed, gate) == Replayed(done, store)
    requires forall j :: 0 <= j < i ==> pkgs[j].version.Some? && !done[j].MissingVersion?
    requires any <==> exists j :: 0 <= j < i && done[j].Imported?
    ensures var step := gate(pkgs[i], store);
      var next := done + [step];
      && Replay(pkgs, i + 1, installed, gate) == Replayed(next, Record(step, store))
      && (forall j :: 0 <= j < i + 1 ==> pkgs[j].version.Some? && !next[j].MissingVersion?)
      && (any || step.Imported? <==> exists j :: 0 <= j < i + 1 && next[j].Imported?)
  {
    var step := gate(pkgs[i], store);
    assert !Stopped(Replayed(done, store));
    assert forall j :: 0 <= j < i ==> (done + [step])[j] == done[j];
  }

  /** `loadPackages(config, loader)`: `anyChanges |= gate(pkg)` over the
      catalog in order, where the installer's gate is `GateOf(env)`. The flag
      is the OR of the gate's results, and every package is looked at unless
      one lacks a version, which raises out of the loop. */
  method LoadPackages(pkgs: seq<PackageConfig>, installed: Store, gate: Gate) returns (run: BatchRun)
    requires Lawful(gate)
    ensures run.installed == Replay(pkgs, |pkgs|, installed, gate).installed
    ensures run.Finished? <==> forall i :: 0 <= i < |pkgs| ==> pkgs[i].version.Some?
    ensures run.Finished? ==>
      var steps := Replay(pkgs, |pkgs|, installed, gate).steps;
      |steps| == |pkgs| && (run.anyChanges <==> exists i :: 0 <= i < |steps| && steps[i].Imported?)
    ensures run.Aborted? ==>
      run.failedAt < |pkgs| && pkgs[run.failedAt].version.None?
      && forall i :: 0 <= i < run.failedAt ==> pkgs[i].version.Some?
  {
    var anyChanges := false;
    var store := installed;
    var i := 0;
    ghost var done: seq<Step> := [];
    while i < |pkgs|
      invariant 0 <= i <= |pkgs|
      invariant |done| == i
      invariant Replay(pkgs, i, installed, gate) == Replayed(done, store)
      invariant forall j :: 0 <= j < i ==> pkgs[j].version.Some? && !done[j].MissingVersion?
      invariant anyChanges <==> exists j :: 0 <= j < i && done[j].Imported?
    {
      var step := gate(pkgs[i], store);
      if step.MissingVersion? {
        StoppedStays(pkgs, i + 1, |pkgs|, installed, gate);
        return Aborted(i, store);
      }
      Advance(pkgs, i, installed, gate, done, store, anyChanges);
      anyChanges := anyChanges || step.Imported?;
      store := Record(step, store);
      done := done + [step];
      i := i + 1;
    }
    run := Finished(anyChanges, store);
  }

  /** Installing twice: when the first `loadPackages` finishes, a second one
      over the same catalog and collaborators returns false and leaves the
      store as the first left it. */
  method LoadPackagesTwice(pkgs: seq<PackageConfig>, installed: Store, env: Environment)
    returns (first: BatchRun, second: BatchRun)
    ensures first.Finished? ==> second == Finished(false, first.installed)
  {
    GateOfLawful(env);
    first := LoadPackages(pkgs, installed, GateOf(env));
    second := LoadPackages(pkgs, first.installed, GateOf(env));
    if first.Finished? {
      SecondReplayIsQuiet(pkgs, installed, GateOf(env));
    }
  }

  /** `setupSpecificMetadata(loader, names...)`: the batch over the packages
      whose `filenameBase` is requested, through any lawful gate (the source's
      is `GateOf(env)`, lawful by `GateOfLawful`). `kept` is the
      configuration's package list once the removal loop has run. Only groups
      of requested packages change. */
  method SetupSpecificMetadata(catalog: seq<PackageConfig>, names: seq<string>, installed: Store, gate: Gate)
    returns (kept: seq<PackageConfig>, run: BatchRun)
    requires Lawful(gate)
    ensures Narrowed(kept, catalog, names)
    ensures run.installed == Replay(kept, |kept|, installed, gate).installed
    ensures run.Finished? <==> forall p :: p in catalog && p.filenameBase in names ==> p.version.Some?
    ensures run.Finished? ==>
      var steps := Replay(kept, |kept|, installed, gate).steps;
      run.anyChanges <==> exists i :: 0 <= i < |steps| && steps[i].Imported?
    ensures forall g :: g in run.installed && !(g in installed && installed[g] == run.installed[g]) ==>
      exists p :: p in catalog && p.filenameBase in names && p.groupUuid == g
  {
    kept := Keep(catalog, names);
    run := LoadPackages(kept, installed, gate);
    assert (forall i :: 0 <= i < |kept| ==> kept[i].version.Some?) <==>
      forall p :: p in kept ==> p.version.Some?;
    ReplayGrowsStore(kept, |kept|, installed, gate);
    forall g | g in run.installed && !(g in installed && installed[g] == run.installed[g])
      ensures exists p :: p in catalog && p.filenameBase in names && p.groupUuid == g
    {
      var i :| 0 <= i < |kept| && kept[i].groupUuid == g;
      assert kept[i] in kept;
    }
  }
}
