/** The engine with the filesystem as its mutable state: each function of
    the module, and `main`, as a method that performs the same steps in the
    same order, proved to end in the state and with the exception its
    specification function gives. */
module Symlark {
  import opened Outcomes
  import opened Strings
  import opened Paths
  import opened FileSystem
  import Actions
  import opened Scan
  import Compare
  import opened Archive
  import Reconcile

  class Engine {
    var fs: FS

    constructor (fs: FS)
      ensures this.fs == fs
    {
      this.fs := fs;
    }

    /** `nested_list(d, remove_base=base)` (symlark/symlark.py:19-31). */
    method NestedList(d: string, base: string) returns (r: Outcome<seq<string>>)
      requires WellFormed(fs)
      ensures r == Listing(fs, d, base)
      decreases Below(fs, d), 1
    {
      var listed := ListDir(fs, d);
      if listed.Raised? {
        return Raised(listed.error);
      }
      var names := listed.value;
      EntriesValid(fs, d);
      var acc: seq<string> := [];
      var k := 0;
      while k < |names|
        invariant 0 <= k <= |names|
        invariant AllValid(names[..k])
        invariant Gather(fs, d, names[..k], base) == Ok(acc)
      {
        GatherExtend(fs, d, names, k, base);
        acc := NestedStep(d, names[k], base, acc);
        k := k + 1;
      }
      assert names[..|names|] == names;
      return Ok(Sort(acc));
    }

    /** One iteration of the loop of `nested_list` on entry `i`: descend
        into a subdirectory, or append the (base-stripped) path. */
    method NestedStep(d: string, i: string, base: string, acc: seq<string>) returns (acc': seq<string>)
      requires WellFormed(fs) && ValidName(i)
      ensures Step(fs, d, i, base, acc) == Ok(acc')
      decreases Below(fs, d), 0
    {
      var pth := Join(d, i);
      if pth in fs && fs[pth].Dir? {
        BelowShrinks(fs, d, i);
        ListingRaisesOnlyAtTop(fs, pth, "");
        var sub := NestedList(pth, "");
        acc' := acc + sub.value;
      } else {
        acc' := acc + [Shown(pth, base)];
      }
    }

    /** The per-file loop of `dirs_match` over `pairs`, with its tally
        (symlark/symlark.py:43-56). */
    method CompareFiles(pairs: seq<(string, string)>) returns (r: Outcome<Compare.Tally>)
      ensures r == Compare.TallyOf(fs, pairs)
    {
      var errs := 0;
      var hashed: seq<string> := [];
      var k := 0;
      while k < |pairs|
        invariant 0 <= k <= |pairs|
        invariant Compare.TallyOf(fs, pairs[..k]) == Ok(Compare.Tally(errs, hashed))
      {
        var (i1, i2) := pairs[k];
        assert pairs[..k + 1][..k] == pairs[..k] && pairs[..k + 1][k] == (i1, i2);
        if IsFile(fs, i1) {
          var s1 := Size(fs, i1).value;
          var s2 := Size(fs, i2);
          if s2.Raised? {
            Compare.TallyRaisedStays(fs, pairs, k + 1);
            return Raised(s2.error);
          }
          if s1 != s2.value {
            errs := errs + 1;
          } else {
            var m1 := Md5(fs, i1).value;
            var m2 := Md5(fs, i2);
            if m2.Raised? {
              Compare.TallyRaisedStays(fs, pairs, k + 1);
              return Raised(m2.error);
            }
            if m1 != m2.value {
              errs := errs + 1;
            }
            hashed := hashed + [i1, i2];
          }
        }
        k := k + 1;
      }
      assert pairs[..|pairs|] == pairs;
      return Ok(Compare.Tally(errs, hashed));
    }

    /** `dirs_match(d1, d2, base1, base2)`, its per-file loop visiting the
        files below `d1` (symlark/symlark.py:34-59). */
    method DirsMatch(d1: string, d2: string, base1: string, base2: string) returns (r: Outcome<Compare.Verdict>)
      requires WellFormed(fs)
      ensures r == Compare.DirsMatch(fs, d1, d2, base1, base2)
    {
      var l1 := NestedList(d1, base1);
      if l1.Raised? {
        return Raised(l1.error);
      }
      var l2 := NestedList(d2, base2);
      if l2.Raised? {
        return Raised(l2.error);
      }
      if l1.value != l2.value {
        return Ok(Compare.ListingsDiffer);
      }
      var top := Resolve(fs, d1);
      var files := NestedList(top, "");
      var pairs := if files.Ok? then Compare.RebasePairs(files.value, top, d2) else [];
      var t := CompareFiles(pairs);
      if t.Raised? {
        return Raised(t.error);
      }
      return Ok(Compare.Compared(t.value));
    }

    /** `delete_dir(dr)` (symlark/symlark.py:62-68). */
    method DeleteDir(dr: string) returns (raised: Option<OsError>)
      modifies this
      ensures Effected(fs, raised) == Actions.DeleteDir(old(fs), dr)
    {
      var listed := ListDir(fs, dr);
      if listed.Raised? {
        return Some(listed.error);
      }
      var names := listed.value;
      var k := 0;
      while k < |names|
        invariant 0 <= k <= |names|
        invariant Actions.RemoveEach(fs, dr, names[k..]) == Actions.RemoveEach(old(fs), dr, names)
      {
        assert names[k..][0] == names[k] && names[k..][1..] == names[k + 1..];
        var e := RemoveEntry(fs, Resolve(fs, dr), names[k]);
        if e.Failed? {
          return Some(e.error);
        }
        fs := e.fs;
        k := k + 1;
      }
      var e := RemoveDir(fs, dr);
      fs := e.fs;
      raised := if e.Failed? then Some(e.error) else None;
    }

    /** `symlink(target, link)` (symlark/symlark.py:71-73). */
    method Symlink(target: string, link: string) returns (raised: Option<OsError>)
      modifies this
      ensures Effected(fs, raised) == MakeSymlink(old(fs), target, link)
    {
      var e := MakeSymlink(fs, target, link);
      fs := e.fs;
      raised := if e.Failed? then Some(e.error) else None;
    }

    /** `delete_dir(gv)` and, if it returned, `symlink(av, gv)`. */
    method Relink(av: string, gv: string) returns (raised: Option<OsError>)
      modifies this
      ensures Effected(fs, raised) == Actions.Relink(old(fs), av, gv)
    {
      raised := DeleteDir(gv);
      if raised.None? {
        raised := Symlink(av, gv);
      }
    }

    /** `identify_dirs(d)` over the directories `os.walk(d)` yields
        (symlark/symlark.py:89-95). */
    method IdentifyDirs(d: string) returns (r: seq<string>)
      requires WellFormed(fs)
      ensures r == DatasetRoots(fs, d)
    {
      var walked := Walk(fs, d);
      r := [];
      var k := 0;
      while k < |walked|
        invariant 0 <= k <= |walked|
        invariant r == KeepRoots(fs, walked[..k])
      {
        KeepRootsSnoc(fs, walked, k);
        if HasVersionSubdir(fs, walked[k]) {
          r := r + [walked[k]];
        }
        k := k + 1;
      }
      assert walked[..|walked|] == walked;
    }

    /** `os.path.exists(link)` and then `readlink(link)` for the report. */
    method ReportLatest(dr: string) returns (raised: Option<OsError>)
      ensures Effected(fs, raised) == Reconcile.ReportLatest(fs, dr)
    {
      raised := None;
      if Exists(fs, LatestPath(dr)) {
        var target := ReadLink(fs, LatestPath(dr));
        if target.Raised? {
          raised := Some(target.error);
        }
      }
    }

    /** One pass of the version loop of `main` (symlark/symlark.py:160-198). */
    method ProcessVersion(gws: string, arc: string, latest: string, v: string, bd1: string, bd2: string)
      returns (raised: Option<OsError>)
      requires WellFormed(fs)
      modifies this
      ensures Effected(fs, raised) == Reconcile.VersionStep(old(fs), gws, arc, latest, v, bd1, bd2)
    {
      var gv := Join(gws, v);
      var av := Join(arc, v);
      if Less(v, latest) {
        raised := Relink(av, gv);
        return;
      }
      if v == latest {
        if IsLink(fs, gv) && EndsWith(fs[gv].target, av) {
        } else {
          var matched := DirsMatch(gv, av, bd1, bd2);
          if matched.Raised? {
            return Some(matched.error);
          }
          if Compare.Truthy(matched) {
            raised := Relink(av, gv);
            if raised.Some? {
              return;
            }
          }
        }
        var arcLatest := ReadLink(fs, LatestPath(arc));
        if arcLatest.Raised? {
          return Some(arcLatest.error);
        }
      }
      raised := ReportLatest(gws);
    }

    /** One pass of the dataset loop of `main`, newest version first
        (symlark/symlark.py:149-160). */
    method ProcessDataset(d1: string, bd1: string, bd2: string) returns (raised: Option<OsError>)
      requires WellFormed(fs)
      modifies this
      ensures Effected(fs, raised) == Reconcile.DatasetStep(old(fs), d1, bd1, bd2)
    {
      var gwsDir := MakeVersionDir(d1);
      var gwsVersions := FindVersions(fs, gwsDir.dr);
      var arcPath := Reconcile.ArchiveOf(d1, bd1, bd2);
      var arcDir := OpenArchive(fs, arcPath);
      Reconcile.DatasetStepShape(fs, d1, bd1, bd2);
      if arcDir.Raised? {
        return Some(arcDir.error);
      }
      if !arcDir.value.valid {
        return None;
      }
      var latest := arcDir.value.latest.value;
      raised := ProcessVersions(gwsDir.dr, arcPath, latest, Reconcile.Reversed(gwsVersions), bd1, bd2);
    }

    /** The loop `for gws_version in reversed(gws_versions)`
        (symlark/symlark.py:160-198), over the versions in `order`. */
    method ProcessVersions(gws: string, arc: string, latest: string, order: seq<string>,
                           bd1: string, bd2: string) returns (raised: Option<OsError>)
      requires WellFormed(fs)
      modifies this
      ensures Effected(fs, raised) == Reconcile.RunVersions(old(fs), gws, arc, latest, order, bd1, bd2)
    {
      ghost var goal := Reconcile.RunVersions(fs, gws, arc, latest, order, bd1, bd2);
      var k := 0;
      while k < |order|
        invariant 0 <= k <= |order|
        invariant WellFormed(fs)
        invariant Reconcile.RunVersions(fs, gws, arc, latest, order[k..], bd1, bd2) == goal
      {
        Reconcile.RunVersionsFrom(fs, gws, arc, latest, order, k, bd1, bd2);
        raised := ProcessVersion(gws, arc, latest, order[k], bd1, bd2);
        if raised.Some? {
          return;
        }
        k := k + 1;
      }
      return None;
    }

    /** `main(bd1, bd2)` (symlark/symlark.py:137-198). */
    method Run(bd1: string, bd2: string) returns (raised: Option<OsError>)
      requires WellFormed(fs)
      modifies this
      ensures Effected(fs, raised) == Reconcile.Run(old(fs), bd1, bd2)
    {
      if !IsDir(fs, bd1) || !IsDir(fs, bd2) {
        return None;
      }
      var roots := IdentifyDirs(bd1);
      var k := 0;
      while k < |roots|
        invariant 0 <= k <= |roots|
        invariant WellFormed(fs)
        invariant Reconcile.RunDatasets(fs, roots[k..], bd1, bd2) == Reconcile.Run(old(fs), bd1, bd2)
      {
        Reconcile.RunDatasetsFrom(fs, roots, k, bd1, bd2);
        raised := ProcessDataset(roots[k], bd1, bd2);
        if raised.Some? {
          return;
        }
        k := k + 1;
      }
      return None;
    }
  }
}
