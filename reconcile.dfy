/** The decision loop of `main` (symlark/symlark.py:137-198) as functions
    of the filesystem: per version, per dataset, and for the whole run. */
module Reconcile {
  import opened Outcomes
  import opened Strings
  import opened Paths
  import opened FileSystem
  import opened Actions
  import opened Scan
  import opened Compare
  import opened Archive

  /** What the engine does with one working version. */
  datatype Action =
    | ReplaceStale     // older than the archive's `latest`: delete, then link
    | AlreadyLinked    // equal, and already a link whose target ends in the archive path
    | Deduplicate      // equal, and `dirs_match` holds: delete, then link
    | KeepDiffering    // equal, but the copies do not match: left alone
    | ReportNewer      // newer than the archive's `latest`: only reported

  predicate Replaces(a: Action) {
    a == ReplaceStale || a == Deduplicate
  }

  /** The decision rule, with the two tests the equal case makes given as
      plain booleans. */
  function Decide(version: string, latest: string, linked: bool, matched: bool): (a: Action)
    ensures Replaces(a) <==> Less(version, latest) || (version == latest && !linked && matched)
    ensures a == ReportNewer <==> Less(latest, version)
    ensures a == AlreadyLinked <==> version == latest && linked
  {
    LessTrichotomy(version, latest);
    if Less(version, latest) then
      LessAsymmetric(version, latest);
      ReplaceStale
    else if version == latest then
      LessIrreflexive(version);
      if linked then AlreadyLinked else if matched then Deduplicate else KeepDiffering
    else ReportNewer
  }

  /** For two version identifiers the decision follows the numeric order
      of their dates. */
  lemma DecideIsNumeric(version: string, latest: string, linked: bool, matched: bool)
    requires VersionId(version) && VersionId(latest)
    ensures Decide(version, latest, linked, matched) == ReplaceStale <==>
      Value(version[1..]) < Value(latest[1..])
    ensures Decide(version, latest, linked, matched) == ReportNewer <==>
      Value(latest[1..]) < Value(version[1..])
  {
    VersionOrderIsNumeric(version, latest);
    VersionOrderIsNumeric(latest, version);
  }

  /** `Path(gv).is_symlink() and Path(gv).readlink().as_posix().endswith(av)`. */
  predicate Linked(fs: FS, gv: string, av: string) {
    IsLink(fs, gv) && EndsWith(fs[gv].target, av)
  }

  /** The optional report `os.path.exists(latest)` guards: `readlink` of a
      `latest` that exists but is not a link raises. */
  function ReportLatest(fs: FS, dr: string): (r: Effect)
    ensures r.fs == fs
    ensures r.Failed? <==> Exists(fs, LatestPath(dr)) && !IsLink(fs, LatestPath(dr))
  {
    if Exists(fs, LatestPath(dr)) then
      match ReadLink(fs, LatestPath(dr))
      case Raised(e) => Failed(fs, e)
      case Ok(_) => Done(fs)
    else Done(fs)
  }

  /** One pass of the version loop for version `v` of working directory
      `gws`, against archive directory `arc` whose `latest` is `latest`,
      given what the equal branch's call of `dirs_match` returns (only that
      branch looks at it, and only when `gv` is not already linked). */
  function StepWith(fs: FS, gws: string, arc: string, latest: string, v: string,
                    matched: Outcome<Verdict>): (r: Effect)
    requires WellFormed(fs)
    ensures WellFormed(r.fs)
  {
    var gv := Join(gws, v);
    var av := Join(arc, v);
    RelinkWellFormed(fs, av, gv);
    if Less(v, latest) then Relink(fs, av, gv)
    else if v == latest then
      var acted :=
        if Linked(fs, gv, av) then Done(fs)
        else match matched
          case Raised(e) => Failed(fs, e)
          case Ok(verdict) => if Truthy(Ok(verdict)) then Relink(fs, av, gv) else Done(fs);
      match acted
      case Failed(f, e) => Failed(f, e)
      case Done(f) =>
        match ReadLink(f, LatestPath(arc))
        case Raised(e) => Failed(f, e)
        case Ok(_) => ReportLatest(f, gws)
    else ReportLatest(fs, gws)
  }

  /** The version step of the engine, with the corrected `dirs_match`. */
  function VersionStep(fs: FS, gws: string, arc: string, latest: string, v: string,
                       bd1: string, bd2: string): (r: Effect)
    requires WellFormed(fs)
    ensures WellFormed(r.fs)
  {
    StepWith(fs, gws, arc, latest, v, DirsMatch(fs, Join(gws, v), Join(arc, v), bd1, bd2))
  }

  /** The version step as written, with the per-character `dirs_match`. */
  function VersionStepAsWritten(fs: FS, gws: string, arc: string, latest: string, v: string,
                                bd1: string, bd2: string): (r: Effect)
    requires WellFormed(fs)
    ensures WellFormed(r.fs)
  {
    StepWith(fs, gws, arc, latest, v, DirsMatchAsWritten(fs, Join(gws, v), Join(arc, v), bd1, bd2))
  }

  /** Whatever the comparison returns, the state after one version follows
      the decision rule: it is the state after delete-then-link when the
      rule says replace, and untouched otherwise; a stale version's step is
      exactly that replacement, exception included. */
  lemma StepFollowsDecide(fs: FS, gws: string, arc: string, latest: string, v: string,
                          matched: Outcome<Verdict>)
    requires WellFormed(fs)
    ensures var gv := Join(gws, v); var av := Join(arc, v);
      var a := Decide(v, latest, Linked(fs, gv, av), Truthy(matched));
      && StepWith(fs, gws, arc, latest, v, matched).fs == (if Replaces(a) then Relink(fs, av, gv).fs else fs)
      && (a == ReplaceStale ==> StepWith(fs, gws, arc, latest, v, matched) == Relink(fs, av, gv))
  {
  }

  /** The engine's version step follows the decision rule, with the
      corrected comparison deciding the equal case. */
  lemma VersionStepFollowsDecide(fs: FS, gws: string, arc: string, latest: string, v: string,
                                 bd1: string, bd2: string)
    requires WellFormed(fs)
    ensures var gv := Join(gws, v); var av := Join(arc, v);
      var a := Decide(v, latest, Linked(fs, gv, av), Truthy(DirsMatch(fs, gv, av, bd1, bd2)));
      && VersionStep(fs, gws, arc, latest, v, bd1, bd2).fs == (if Replaces(a) then Relink(fs, av, gv).fs else fs)
      && (a == ReplaceStale ==> VersionStep(fs, gws, arc, latest, v, bd1, bd2) == Relink(fs, av, gv))
  {
    StepFollowsDecide(fs, gws, arc, latest, v, DirsMatch(fs, Join(gws, v), Join(arc, v), bd1, bd2));
  }

  /** On a directory shaped like `Differing`, the as-written step replaces
      the working copy and the corrected one does not. */
  lemma DifferingDecisions(fs: FS)
    requires WellFormed(fs) && LooksLikeDiffering(fs)
    ensures VersionStepAsWritten(fs, "/g", "/a", "v1", "v1", "/g", "/a").fs == Relink(fs, Archived, Working).fs
    ensures VersionStep(fs, "/g", "/a", "v1", "v1", "/g", "/a").fs == fs
  {
    assert Join("/g", "v1") == Working && Join("/a", "v1") == Archived;
    AcceptsDiffering(fs);
    LessIrreflexive("v1");
    assert !Linked(fs, Working, Archived);
    StepFollowsDecide(fs, "/g", "/a", "v1", "v1", DirsMatchAsWritten(fs, Working, Archived, "/g", "/a"));
    StepFollowsDecide(fs, "/g", "/a", "v1", "v1", DirsMatch(fs, Working, Archived, "/g", "/a"));
  }

  /** As written, the equal branch deletes a working copy whose file differs
      from the archive copy and links it to the archive; the engine with the
      corrected comparison leaves it alone. */
  lemma AsWrittenDeletesDifferingCopy(fs: FS)
    requires WellFormed(fs) && LooksLikeDiffering(fs) && "/g" in fs && fs["/g"].Dir?
    ensures var r := VersionStepAsWritten(fs, "/g", "/a", "v1", "v1", "/g", "/a").fs;
      && Working in r && r[Working] == Symlink(Archived)
      && Working + "/f" in fs && Working + "/f" !in r
    ensures VersionStep(fs, "/g", "/a", "v1", "v1", "/g", "/a").fs == fs
  {
    DifferingDecisions(fs);
    RelinkDiffering(fs);
  }

  /** A working version linked to another directory whose file differs
      from the archive copy is left alone: the target's file survives. */
  lemma LinkedCopyKept(fs: FS)
    requires WellFormed(fs) && LooksLikeLinkedCopy(fs)
    ensures VersionStep(fs, "/g", "/a", "v1", "v1", "/g", "/a").fs == fs
    ensures "/x/f" in VersionStep(fs, "/g", "/a", "v1", "v1", "/g", "/a").fs
  {
    assert Join("/g", "v1") == Working && Join("/a", "v1") == Archived;
    LinkedCopyCompared(fs);
    LessIrreflexive("v1");
    VersionStepFollowsDecide(fs, "/g", "/a", "v1", "v1", "/g", "/a");
  }

  /** Delete-then-link on a directory shaped like `Differing` removes its
      file and leaves the link. */
  lemma RelinkDiffering(fs: FS)
    requires WellFormed(fs) && LooksLikeDiffering(fs) && "/g" in fs && fs["/g"].Dir?
    ensures var r := Relink(fs, Archived, Working);
      && r.Done? && Working in r.fs && r.fs[Working] == Symlink(Archived)
      && Working + "/f" in fs && Working + "/f" !in r.fs
  {
    assert Join("/g", "v1") == Working;
    assert Join(Working, "f") == Working + "/f";
    assert fs[Working].entries == ["f"];
    assert Normal("/g") && ValidName("v1") && Distinct(["f"]);
    assert forall n :: n in fs[Working].entries ==> n == "f";
    assert Join(Working, "f") == "/g/v1/f" && Archived != "";
    assert Join("/g", "v1") in fs && fs[Join("/g", "v1")].Dir?;
    RelinkSucceeds(fs, Archived, "/g", "v1");
    RelinkOutcome(fs, Archived, Working);
    assert Working + "/f" in Targets(Working, fs[Working].entries);
  }

  /** No loss in the equal case: a working version equal to `latest` is
      replaced only when it is not already linked and every file below the
      directory it resolves to has a counterpart in the archive with the
      same size and digest. */
  lemma EqualVersionReplacedOnlyWhenCopied(fs: FS, gws: string, arc: string, v: string,
                                           bd1: string, bd2: string)
    requires WellFormed(fs)
    requires VersionStep(fs, gws, arc, v, v, bd1, bd2).fs != fs
    ensures var gv := Join(gws, v); var av := Join(arc, v); var top := Resolve(fs, gv);
      && !Linked(fs, gv, av)
      && Listing(fs, gv, bd1) == Listing(fs, av, bd2)
      && Listing(fs, top, "").Ok?
      && forall x :: x in Listing(fs, top, "").value && IsFile(fs, x) ==>
           Size(fs, Rebase(x, top, av)) == Size(fs, x) && Md5(fs, Rebase(x, top, av)) == Md5(fs, x)
  {
    var gv := Join(gws, v);
    var av := Join(arc, v);
    VersionStepFollowsDecide(fs, gws, arc, v, v, bd1, bd2);
    DirsMatchExact(fs, gv, av, bd1, bd2);
  }

  /** After a successful deduplication the link's target is exactly the
      archive path, so the next run takes the already-linked branch and
      changes nothing. */
  lemma DeduplicationIsFinal(fs: FS, gws: string, arc: string, v: string, bd1: string, bd2: string)
    requires WellFormed(fs)
    requires VersionStep(fs, gws, arc, v, v, bd1, bd2).Done?
    requires VersionStep(fs, gws, arc, v, v, bd1, bd2).fs != fs
    ensures var f := VersionStep(fs, gws, arc, v, v, bd1, bd2).fs;
      && Linked(f, Join(gws, v), Join(arc, v))
      && VersionStep(f, gws, arc, v, v, bd1, bd2).fs == f
  {
    var gv := Join(gws, v);
    var av := Join(arc, v);
    LessIrreflexive(v);
    var f := VersionStep(fs, gws, arc, v, v, bd1, bd2).fs;
    assert !Linked(fs, gv, av);
    var r := Relink(fs, av, gv);
    assert r.Done? && f == r.fs;
    assert f[gv] == Symlink(av);
    assert EndsWith(av, av) by { assert av[|av| - |av|..] == av; }
    LessIrreflexive(v);
  }

  /** A stale step that succeeds leaves the working version as a link to
      the archive copy. */
  lemma StaleReplacementLinks(fs: FS, gws: string, arc: string, latest: string, v: string,
                              bd1: string, bd2: string)
    requires WellFormed(fs) && Less(v, latest)
    requires VersionStep(fs, gws, arc, latest, v, bd1, bd2).Done?
    ensures VersionStep(fs, gws, arc, latest, v, bd1, bd2).fs[Join(gws, v)] == Symlink(Join(arc, v))
  {
  }

  /** The working version is a flat directory inside a real dataset
      directory, as data lands. */
  predicate FlatVersion(fs: FS, gws: string, v: string) {
    var gv := Join(gws, v);
    && Normal(gws) && ValidName(v) && gws in fs && fs[gws].Dir?
    && gv in fs && fs[gv].Dir? && Distinct(fs[gv].entries)
    && forall n :: n in fs[gv].entries ==> Join(gv, n) in fs && !fs[Join(gv, n)].Dir?
  }

  /** Stale cleanup: a flat working version older than `latest` is
      deleted and replaced by a link to its archive path, in one step that
      raises nothing. */
  lemma StaleCleanup(fs: FS, gws: string, arc: string, latest: string, v: string,
                     bd1: string, bd2: string)
    requires WellFormed(fs) && Less(v, latest) && FlatVersion(fs, gws, v)
    ensures VersionStep(fs, gws, arc, latest, v, bd1, bd2).Done?
    ensures VersionStep(fs, gws, arc, latest, v, bd1, bd2).fs[Join(gws, v)] == Symlink(Join(arc, v))
  {
    VersionStepFollowsDecide(fs, gws, arc, latest, v, bd1, bd2);
    RelinkSucceeds(fs, Join(arc, v), gws, v);
  }

  /** Dedup correctness: a flat working version equal to `latest`, not yet
      linked, whose listing and whose files' sizes and digests agree with
      the archive copy, is replaced by a link to the archive copy. */
  lemma DeduplicationReplaces(fs: FS, gws: string, arc: string, v: string, bd1: string, bd2: string)
    requires WellFormed(fs) && FlatVersion(fs, gws, v)
    requires var gv := Join(gws, v); var av := Join(arc, v);
      && !Linked(fs, gv, av)
      && Listing(fs, gv, bd1) == Listing(fs, av, bd2)
      && Listing(fs, gv, "").Ok?
      && forall x :: x in Listing(fs, gv, "").value && IsFile(fs, x) ==>
           Size(fs, Rebase(x, gv, av)) == Size(fs, x) && Md5(fs, Rebase(x, gv, av)) == Md5(fs, x)
    ensures Join(gws, v) in VersionStep(fs, gws, arc, v, v, bd1, bd2).fs
    ensures VersionStep(fs, gws, arc, v, v, bd1, bd2).fs[Join(gws, v)] == Symlink(Join(arc, v))
  {
    var gv := Join(gws, v);
    var av := Join(arc, v);
    assert Resolve(fs, gv) == gv;
    ListingRaisesOnlyAtTop(fs, gv, bd1);
    DirsMatchExact(fs, gv, av, bd1, bd2);
    EqualStepReplaces(fs, gws, arc, v, bd1, bd2);
    RelinkSucceeds(fs, av, gws, v);
  }

  /** The equal branch, when not linked and matching, leaves exactly the
      state of delete-then-link. */
  lemma EqualStepReplaces(fs: FS, gws: string, arc: string, v: string, bd1: string, bd2: string)
    requires WellFormed(fs)
    requires !Linked(fs, Join(gws, v), Join(arc, v))
    requires Truthy(DirsMatch(fs, Join(gws, v), Join(arc, v), bd1, bd2))
    ensures VersionStep(fs, gws, arc, v, v, bd1, bd2).fs == Relink(fs, Join(arc, v), Join(gws, v)).fs
  {
    LessIrreflexive(v);
    VersionStepFollowsDecide(fs, gws, arc, v, v, bd1, bd2);
  }

  /** The stale branch has no link guard: run again on a version it already
      replaced, it lists through the link, removes every file of the
      directory the link resolves to, and only then fails on `rmdir` of the
      link. With an absolute archive path that directory is the archive
      copy itself. */
  lemma StaleRerunDamagesArchive(fs: FS, gws: string, arc: string, latest: string, v: string,
                                 bd1: string, bd2: string)
    requires WellFormed(fs) && Less(v, latest)
    requires var gv := Join(gws, v); var d := Resolve(fs, gv);
      && gv in fs && fs[gv] == Symlink(Join(arc, v))
      && d in fs && fs[d].Dir? && Distinct(fs[d].entries)
      && (forall n :: n in fs[d].entries ==> Join(d, n) in fs && fs[Join(d, n)].File?)
      && !StrictPrefix(d, gv)
    ensures |arc| > 0 && arc[0] == '/' ==> Resolve(fs, Join(gws, v)) == Join(arc, v)
    ensures var r := VersionStep(fs, gws, arc, latest, v, bd1, bd2); var d := Resolve(fs, Join(gws, v));
      && r.Failed? && r.error == NotADirectory
      && r.fs.Keys == fs.Keys - Targets(d, fs[d].entries)
  {
    var gv := Join(gws, v);
    StaleRerunDestroysArchive(fs, gv, Resolve(fs, gv));
    if |arc| > 0 && arc[0] == '/' {
      assert Join(arc, v)[0] == '/';
    }
  }

  /** `reversed(seq)`. */
  function Reversed(s: seq<string>): (r: seq<string>)
    ensures |r| == |s|
    ensures forall i :: 0 <= i < |s| ==> r[i] == s[|s| - 1 - i]
  {
    if s == [] then [] else [s[|s| - 1]] + Reversed(s[..|s| - 1])
  }

  /** The versions are visited newest first. */
  lemma NewestFirst(s: seq<string>)
    requires Sorted(s)
    ensures forall i, j :: 0 <= i < j < |s| ==> LessEq(Reversed(s)[j], Reversed(s)[i])
  {
    var r := Reversed(s);
    forall i, j | 0 <= i < j < |s| ensures LessEq(r[j], r[i]) {
      assert r[j] == s[|s| - 1 - j] && r[i] == s[|s| - 1 - i];
    }
  }

  /** The version loop over `vs`, in order; the first exception ends it. */
  function RunVersions(fs: FS, gws: string, arc: string, latest: string, vs: seq<string>,
                       bd1: string, bd2: string): (r: Effect)
    requires WellFormed(fs)
    ensures WellFormed(r.fs)
    decreases |vs|
  {
    if vs == [] then Done(fs)
    else match VersionStep(fs, gws, arc, latest, vs[0], bd1, bd2)
      case Failed(f, e) => Failed(f, e)
      case Done(f) => RunVersions(f, gws, arc, latest, vs[1..], bd1, bd2)
  }

  /** `d1.replace(bd1, bd2)`: the archive directory of a working dataset. */
  function ArchiveOf(d1: string, bd1: string, bd2: string): string {
    ReplaceAll(d1, bd1, bd2)
  }

  /** A dataset below the working root whose path mentions the root only at
      its start gets the same path below the archive root; any later
      occurrence of the root in the path would be replaced as well. */
  lemma ArchiveOfRebases(bd1: string, bd2: string, rest: string)
    requires bd1 != [] && forall k :: !OccursAt(rest, bd1, k)
    ensures ArchiveOf(bd1 + rest, bd1, bd2) == bd2 + rest
  {
    ReplaceAllPrefix(bd1, rest, bd2);
    ReplaceAllAbsent(rest, bd1, bd2);
  }

  /** One pass of the dataset loop for working dataset directory `d1`. */
  function DatasetStep(fs: FS, d1: string, bd1: string, bd2: string): (r: Effect)
    requires WellFormed(fs)
    ensures WellFormed(r.fs)
  {
    var gws := MakeVersionDir(d1).dr;
    var versions := FindVersions(fs, gws);
    var arc := ArchiveOf(d1, bd1, bd2);
    ArchiveValidityExact(fs, arc);
    match ArchiveValidity(fs, arc)
    case Raised(e) => Failed(fs, e)
    case Ok(valid) =>
      if !valid then Done(fs)
      else RunVersions(fs, gws, arc, LatestOf(fs, arc).value, Reversed(versions), bd1, bd2)
  }

  /** A version newer than `latest`, or one equal to it and not
      replaceable, never changes anything. */
  lemma {:induction false} RunVersionsChangesOnlyWhenReplacing(fs: FS, gws: string, arc: string, latest: string,
                                                               vs: seq<string>, bd1: string, bd2: string)
    requires WellFormed(fs)
    requires RunVersions(fs, gws, arc, latest, vs, bd1, bd2).fs != fs
    ensures exists k :: 0 <= k < |vs| && LessEq(vs[k], latest)
    decreases |vs|
  {
    var v := vs[0];
    var step := VersionStep(fs, gws, arc, latest, v, bd1, bd2);
    VersionStepFollowsDecide(fs, gws, arc, latest, v, bd1, bd2);
    if step.fs == fs {
      if step.Done? {
        RunVersionsChangesOnlyWhenReplacing(step.fs, gws, arc, latest, vs[1..], bd1, bd2);
        var k :| 0 <= k < |vs[1..]| && LessEq(vs[1..][k], latest);
        assert vs[k + 1] == vs[1..][k];
      }
    } else {
      assert LessEq(vs[0], latest);
    }
  }

  /** The two shapes a dataset step can take. */
  lemma DatasetStepShape(fs: FS, d1: string, bd1: string, bd2: string)
    requires WellFormed(fs)
    ensures var arc := ArchiveOf(d1, bd1, bd2);
      ArchiveValidity(fs, arc).Raised? ==> DatasetStep(fs, d1, bd1, bd2) == Failed(fs, ArchiveValidity(fs, arc).error)
    ensures var arc := ArchiveOf(d1, bd1, bd2);
      ArchiveValidity(fs, arc) == Ok(false) ==> DatasetStep(fs, d1, bd1, bd2) == Done(fs)
    ensures var arc := ArchiveOf(d1, bd1, bd2);
      ArchiveValidity(fs, arc) == Ok(true) ==>
        && LatestOf(fs, arc).Some?
        && DatasetStep(fs, d1, bd1, bd2) ==
             RunVersions(fs, d1, arc, LatestOf(fs, arc).value, Reversed(FindVersions(fs, d1)), bd1, bd2)
  {
    var arc := ArchiveOf(d1, bd1, bd2);
    ArchiveValidityExact(fs, arc);
    assert MakeVersionDir(d1).dr == d1;
    var validity := ArchiveValidity(fs, arc);
    if validity.Raised? {
      assert DatasetStep(fs, d1, bd1, bd2) == Failed(fs, validity.error);
    } else if validity == Ok(false) {
      assert DatasetStep(fs, d1, bd1, bd2) == Done(fs);
    }
  }

  /** No dataset changes unless its archive is valid and it holds a
      working version no newer than the archive's `latest`. */
  lemma DatasetChangesOnlyWhenValid(fs: FS, d1: string, bd1: string, bd2: string)
    requires WellFormed(fs)
    requires DatasetStep(fs, d1, bd1, bd2).fs != fs
    ensures var arc := ArchiveOf(d1, bd1, bd2);
      && ArchiveValidity(fs, arc) == Ok(true)
      && exists v :: v in FindVersions(fs, d1) && LessEq(v, fs[LatestPath(arc)].target)
  {
    DatasetStepShape(fs, d1, bd1, bd2);
    var arc := ArchiveOf(d1, bd1, bd2);
    SomeVersionNotNewer(fs, d1, arc, LatestOf(fs, arc).value, FindVersions(fs, d1), bd1, bd2);
  }

  lemma SomeVersionNotNewer(fs: FS, gws: string, arc: string, latest: string, versions: seq<string>,
                            bd1: string, bd2: string)
    requires WellFormed(fs)
    requires RunVersions(fs, gws, arc, latest, Reversed(versions), bd1, bd2).fs != fs
    ensures exists v :: v in versions && LessEq(v, latest)
  {
    var order := Reversed(versions);
    RunVersionsChangesOnlyWhenReplacing(fs, gws, arc, latest, order, bd1, bd2);
    var k :| 0 <= k < |order| && LessEq(order[k], latest);
    assert order[k] == versions[|versions| - 1 - k];
  }

  /** The loop over `vs` from position `k` on: one step, then the rest. */
  lemma RunVersionsFrom(fs: FS, gws: string, arc: string, latest: string, vs: seq<string>, k: nat,
                        bd1: string, bd2: string)
    requires WellFormed(fs) && k < |vs|
    ensures RunVersions(fs, gws, arc, latest, vs[k..], bd1, bd2) ==
      match VersionStep(fs, gws, arc, latest, vs[k], bd1, bd2)
      case Failed(f, e) => Failed(f, e)
      case Done(f) => RunVersions(f, gws, arc, latest, vs[k + 1..], bd1, bd2)
  {
    assert vs[k..][0] == vs[k] && vs[k..][1..] == vs[k + 1..];
  }

  /** The dataset loop over `roots`, in order; the first exception ends the
      whole run. */
  function RunDatasets(fs: FS, roots: seq<string>, bd1: string, bd2: string): (r: Effect)
    requires WellFormed(fs)
    ensures WellFormed(r.fs)
    decreases |roots|
  {
    if roots == [] then Done(fs)
    else match DatasetStep(fs, roots[0], bd1, bd2)
      case Failed(f, e) => Failed(f, e)
      case Done(f) => RunDatasets(f, roots[1..], bd1, bd2)
  }

  /** The loop over `roots` from position `k` on: one step, then the rest. */
  lemma RunDatasetsFrom(fs: FS, roots: seq<string>, k: nat, bd1: string, bd2: string)
    requires WellFormed(fs) && k < |roots|
    ensures RunDatasets(fs, roots[k..], bd1, bd2) ==
      match DatasetStep(fs, roots[k], bd1, bd2)
      case Failed(f, e) => Failed(f, e)
      case Done(f) => RunDatasets(f, roots[k + 1..], bd1, bd2)
  {
    assert roots[k..][0] == roots[k] && roots[k..][1..] == roots[k + 1..];
  }

  /** `main(bd1, bd2)`: both top-level directories must exist; the dataset
      roots are identified once, before anything changes. */
  function Run(fs: FS, bd1: string, bd2: string): (r: Effect)
    requires WellFormed(fs)
    ensures WellFormed(r.fs)
    ensures !IsDir(fs, bd1) || !IsDir(fs, bd2) ==> r == Done(fs)
  {
    if !IsDir(fs, bd1) || !IsDir(fs, bd2) then Done(fs)
    else RunDatasets(fs, DatasetRoots(fs, bd1), bd1, bd2)
  }

  /** A run in which no dataset has a valid archive changes nothing: each
      dataset either is skipped or, when checking its archive raises, ends
      the run with that exception and the state untouched. */
  lemma {:induction false} RunDatasetsUnchanged(fs: FS, roots: seq<string>, bd1: string, bd2: string)
    requires WellFormed(fs)
    requires forall d :: d in roots ==> ArchiveValidity(fs, ArchiveOf(d, bd1, bd2)) != Ok(true)
    ensures RunDatasets(fs, roots, bd1, bd2).fs == fs
    ensures RunDatasets(fs, roots, bd1, bd2).Failed? <==>
      exists d :: d in roots && ArchiveValidity(fs, ArchiveOf(d, bd1, bd2)).Raised?
    decreases |roots|
  {
    if roots != [] {
      var d := roots[0];
      var validity := ArchiveValidity(fs, ArchiveOf(d, bd1, bd2));
      DatasetStepShape(fs, d, bd1, bd2);
      RunDatasetsFrom(fs, roots, 0, bd1, bd2);
      assert roots[0..] == roots;
      if validity.Raised? {
        assert DatasetStep(fs, d, bd1, bd2).Failed?;
      } else {
        assert validity == Ok(false);
        assert DatasetStep(fs, d, bd1, bd2) == Done(fs);
        assert RunDatasets(fs, roots, bd1, bd2) == RunDatasets(fs, roots[1..], bd1, bd2);
        RunDatasetsUnchanged(fs, roots[1..], bd1, bd2);
        assert forall x :: x in roots <==> x == d || x in roots[1..];
      }
    }
  }

  /** `main` leaves the tree as it was when no dataset root it identifies
      has a valid archive directory. */
  lemma RunUnchangedWithoutValidArchive(fs: FS, bd1: string, bd2: string)
    requires WellFormed(fs)
    requires forall d :: d in DatasetRoots(fs, bd1) ==> ArchiveValidity(fs, ArchiveOf(d, bd1, bd2)) != Ok(true)
    ensures Run(fs, bd1, bd2).fs == fs
  {
    if IsDir(fs, bd1) && IsDir(fs, bd2) {
      RunDatasetsUnchanged(fs, DatasetRoots(fs, bd1), bd1, bd2);
    }
  }
}
