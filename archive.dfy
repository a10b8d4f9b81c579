/** `VersionDir` and `ArchiveDir` (symlark/symlark.py:102-134): the working
    dataset directory and the archive dataset directory with its validity. */
module Archive {
  import opened Outcomes
  import opened Strings
  import opened Paths
  import opened FileSystem
  import opened Scan

  /** A working dataset directory and the two halves of `os.path.split`;
      the engine only ever reads `dr`. */
  datatype VersionDir = VersionDir(dr: string, base: string, version: string)

  function MakeVersionDir(dr: string): (v: VersionDir)
    ensures v.dr == dr
  {
    VersionDir(dr, Parent(dr), Base(dr))
  }

  /** For a directory inside a normalised parent, `base` is that parent and
      `version` the directory's own name. */
  lemma VersionDirSplits(d: string, e: string)
    requires Normal(d) && ValidName(e)
    ensures MakeVersionDir(Join(d, e)) == VersionDir(Join(d, e), d, e)
  {
    SplitJoin(d, e);
  }

  /** The path of the `latest` link of a dataset directory. */
  function LatestPath(dr: string): string {
    dr + "/latest"
  }

  /** `self.latest`: the target of `latest` when it is a link, else `False`
      (represented by `None`). A target is never empty, so `not self.latest`
      holds exactly for `None`. */
  function LatestOf(fs: FS, dr: string): (r: Option<string>)
    ensures r.Some? <==> IsLink(fs, LatestPath(dr))
    ensures r.Some? ==> ReadLink(fs, LatestPath(dr)) == Ok(r.value)
    ensures WellFormed(fs) && r.Some? ==> r.value != ""
  {
    match ReadLink(fs, LatestPath(dr))
    case Ok(t) => Some(t)
    case Raised(_) => None
  }

  /** `_check_valid` on the fields it reads. The two `if` chains are
      independent: the second one indexes `versions[-1]` whenever there is
      a `latest` link, and raises when there are no versions. */
  function Validity(present: bool, versions: seq<string>, latest: Option<string>): (r: Outcome<bool>)
    ensures r == Ok(true) ==> present && versions != [] && latest == Some(versions[|versions| - 1])
    ensures latest.None? ==> r == Ok(false)
    ensures r.Raised? ==> r.error == IndexOutOfRange && versions == []
  {
    var first := present && versions != [];
    match latest
    case None => Ok(false)
    case Some(t) =>
      if versions == [] then Raised(IndexOutOfRange)
      else Ok(first && t == versions[|versions| - 1])
  }

  /** The four-way conjunction, and the one combination that raises. */
  lemma ValidityExact(present: bool, versions: seq<string>, latest: Option<string>)
    ensures Validity(present, versions, latest) == Ok(true) <==>
      present && versions != [] && latest.Some? && latest.value == versions[|versions| - 1]
    ensures Validity(present, versions, latest).Raised? <==> latest.Some? && versions == []
    ensures Validity(present, versions, latest).Raised? ==>
      Validity(present, versions, latest).error == IndexOutOfRange
  {
  }

  /** The validity `ArchiveDir(dr)` computes from the filesystem. */
  function ArchiveValidity(fs: FS, dr: string): (r: Outcome<bool>)
    requires WellFormed(fs)
    ensures r == Ok(true) ==> IsDir(fs, dr) && FindVersions(fs, dr) != [] && IsLink(fs, LatestPath(dr))
    ensures !IsLink(fs, LatestPath(dr)) ==> r == Ok(false)
  {
    Validity(IsDir(fs, dr), FindVersions(fs, dr), LatestOf(fs, dr))
  }

  /** A valid archive directory is a directory whose `latest` link names
      its newest version, by name alone; no valid archive raises. */
  lemma ArchiveValidityExact(fs: FS, dr: string)
    requires WellFormed(fs)
    ensures ArchiveValidity(fs, dr) == Ok(true) <==>
      && IsDir(fs, dr) && FindVersions(fs, dr) != [] && IsLink(fs, LatestPath(dr))
      && fs[LatestPath(dr)].target == FindVersions(fs, dr)[|FindVersions(fs, dr)| - 1]
    ensures ArchiveValidity(fs, dr) == Ok(true) ==>
      fs[LatestPath(dr)].target in ListDir(fs, dr).value && GlobVersion(fs[LatestPath(dr)].target)
    ensures ArchiveValidity(fs, dr).Raised? <==> IsLink(fs, LatestPath(dr)) && FindVersions(fs, dr) == []
  {
    var vs := FindVersions(fs, dr);
    ValidityExact(IsDir(fs, dr), vs, LatestOf(fs, dr));
    if vs != [] {
      assert vs[|vs| - 1] in vs;
    }
  }

  /** `ArchiveDir`: the fields the constructor fills in, one by one
      (`present` is the source's `exists`). */
  class ArchiveDir {
    const dr: string
    var present: bool
    var versions: seq<string>
    var latest: Option<string>
    var valid: bool

    /** The field assignments of `__init__` before `_check_valid`. */
    constructor (fs: FS, dr: string)
      requires WellFormed(fs)
      ensures this.dr == dr && present == IsDir(fs, dr)
      ensures versions == FindVersions(fs, dr) && latest == LatestOf(fs, dr)
      ensures !valid
    {
      this.dr := dr;
      present := IsDir(fs, dr);
      versions := FindVersions(fs, dr);
      latest := LatestOf(fs, dr);
      valid := false;
    }

    /** `_check_valid`: a local flag cleared by either chain, stored at the
        end; an `IndexError` leaves `valid` unassigned. */
    method CheckValid(fs: FS) returns (r: Outcome<bool>)
      requires present == IsDir(fs, dr) && latest == LatestOf(fs, dr)
      modifies this
      ensures r == Validity(present, versions, latest)
      ensures r.Ok? ==> valid == r.value
      ensures r.Raised? ==> valid == old(valid)
      ensures present == old(present) && versions == old(versions) && latest == old(latest)
    {
      var ok := true;
      if !IsDir(fs, dr) {
        ok := false;
      } else if versions == [] {
        ok := false;
      }
      if latest.None? {
        ok := false;
      } else {
        var target := ReadLink(fs, LatestPath(dr));
        if versions == [] {
          return Raised(IndexOutOfRange);
        }
        if target.value != versions[|versions| - 1] {
          ok := false;
        }
      }
      valid := ok;
      return Ok(ok);
    }
  }

  /** `ArchiveDir(dr)`: construct, then `_check_valid`, which may raise. */
  method OpenArchive(fs: FS, dr: string) returns (r: Outcome<ArchiveDir>)
    requires WellFormed(fs)
    ensures ArchiveValidity(fs, dr).Raised? <==> r.Raised?
    ensures r.Raised? ==> r.error == ArchiveValidity(fs, dr).error
    ensures r.Ok? ==> fresh(r.value) && r.value.dr == dr && r.value.versions == FindVersions(fs, dr)
    ensures r.Ok? ==> r.value.latest == LatestOf(fs, dr) && Ok(r.value.valid) == ArchiveValidity(fs, dr)
  {
    var a := new ArchiveDir(fs, dr);
    var v := a.CheckValid(fs);
    if v.Raised? {
      return Raised(v.error);
    }
    return Ok(a);
  }
}
