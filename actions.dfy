/** The two mutation actions, `delete_dir` and `symlink`
    (symlark/symlark.py:62-73), as functions of the filesystem, and what
    they do to it. */
module Actions {
  import opened Outcomes
  import opened Paths
  import opened FileSystem

  /** The loop of `delete_dir`: `os.remove(f"{dr}/{fname}")` for each listed
      name in turn; the kernel resolves a link at `dr` on every call. The
      first exception ends the loop and leaves the earlier removals done. */
  function RemoveEach(fs: FS, dr: string, names: seq<string>): (r: Effect)
    ensures r.fs.Keys <= fs.Keys
    ensures r.Failed? ==> names != []
    decreases |names|
  {
    if names == [] then Done(fs)
    else match RemoveEntry(fs, Resolve(fs, dr), names[0])
      case Failed(f, e) => Failed(f, e)
      case Done(f) => RemoveEach(f, dr, names[1..])
  }

  /** `delete_dir(dr)`: remove every entry `os.listdir(dr)` reports, then
      `os.rmdir(dr)`. */
  function DeleteDir(fs: FS, dr: string): (r: Effect)
    ensures r.fs.Keys <= fs.Keys
    ensures ListDir(fs, dr).Raised? ==> r.fs == fs
    ensures r.Done? ==> dr in fs && dr !in r.fs
  {
    match ListDir(fs, dr)
    case Raised(e) => Failed(fs, e)
    case Ok(names) =>
      match RemoveEach(fs, dr, names)
      case Failed(f, e) => Failed(f, e)
      case Done(f) => RemoveDir(f, dr)
  }

  /** The engine's replacement of `gv` by a link to `av`: `delete_dir(gv)`,
      then, only if that returned, `symlink(av, gv)`. */
  function Relink(fs: FS, av: string, gv: string): (r: Effect)
    ensures r.Done? ==> gv in fs && gv in r.fs && r.fs[gv] == Symlink(av)
    ensures r.fs.Keys <= fs.Keys + {gv}
  {
    match DeleteDir(fs, gv)
    case Failed(f, e) => Failed(f, e)
    case Done(f) => MakeSymlink(f, av, gv)
  }

  /** The paths the removals address. */
  function Targets(d: string, names: seq<string>): set<string> {
    set n | n in names :: Join(d, n)
  }

  /** `s` after taking out every name of `xs`. */
  function WithoutAll(s: seq<string>, xs: seq<string>): (r: seq<string>)
    ensures forall y :: y in r <==> y in s && y !in xs
    decreases |xs|
  {
    if xs == [] then s else WithoutAll(Without(s, xs[0]), xs[1..])
  }

  predicate Distinct(s: seq<string>) {
    forall i, j :: 0 <= i < j < |s| ==> s[i] != s[j]
  }

  /** What the removal loop can and cannot touch: only the listed entries
      of the resolved directory disappear, all of them on success, and no
      other node changes except that directory's entry list. */
  lemma {:induction false} RemoveEachFrame(fs: FS, dr: string, names: seq<string>)
    requires AllValid(names)
    requires !StrictPrefix(Resolve(fs, dr), dr)
    ensures var r := RemoveEach(fs, dr, names);
      var d := Resolve(fs, dr);
      && fs.Keys - r.fs.Keys <= Targets(d, names)
      && (r.Done? ==> Targets(d, names) !! r.fs.Keys)
      && (forall p :: p in r.fs && p != d ==> r.fs[p] == fs[p])
      && Resolve(r.fs, dr) == d
      && (d in fs && fs[d].Dir? ==> d in r.fs && r.fs[d].Dir?)
      && (r.Done? && d in fs && fs[d].Dir? ==> r.fs[d].entries == WithoutAll(fs[d].entries, names))
    decreases |names|
  {
    var d := Resolve(fs, dr);
    if names != [] {
      var n := names[0];
      if RemoveEntry(fs, d, n).Done? {
        var f := RemoveEntry(fs, d, n).fs;
        RemoveEntryStep(fs, dr, n);
        assert AllValid(names[1..]) by {
          forall m | m in names[1..] ensures ValidName(m) { assert m in names; }
        }
        RemoveEachFrame(f, dr, names[1..]);
        var r := RemoveEach(f, dr, names[1..]);
        assert RemoveEach(fs, dr, names) == r;
        assert Targets(d, names) == {Join(d, n)} + Targets(d, names[1..]) by {
          assert names == [n] + names[1..];
        }
        assert fs.Keys - r.fs.Keys <= Targets(d, names);
        assert forall p :: p in r.fs && p != d ==> r.fs[p] == f[p] == fs[p];
        if d in fs && fs[d].Dir? {
          assert WithoutAll(fs[d].entries, names) == WithoutAll(f[d].entries, names[1..]);
        }
      }
    }
  }

  /** One removal of the loop: it keeps where `dr` resolves to and changes
      no node but the resolved directory's entry list. */
  lemma RemoveEntryStep(fs: FS, dr: string, n: string)
    requires ValidName(n)
    requires !StrictPrefix(Resolve(fs, dr), dr)
    requires RemoveEntry(fs, Resolve(fs, dr), n).Done?
    ensures var d := Resolve(fs, dr); var f := RemoveEntry(fs, d, n).fs;
      && Resolve(f, dr) == d
      && (forall p :: p in f && p != d ==> f[p] == fs[p])
      && (d in fs && fs[d].Dir? ==> d in f && f[d] == Dir(Without(fs[d].entries, n)))
  {
    var d := Resolve(fs, dr);
    JoinExtends(d, n);
    assert Join(d, n) != dr && Join(d, n) != d;
  }

  /** Removing each distinct, existing, non-directory entry succeeds. */
  lemma {:induction false} RemoveEachSucceeds(fs: FS, dr: string, names: seq<string>)
    requires AllValid(names) && Distinct(names)
    requires !StrictPrefix(Resolve(fs, dr), dr)
    requires forall n :: n in names ==> Join(Resolve(fs, dr), n) in fs && !fs[Join(Resolve(fs, dr), n)].Dir?
    ensures RemoveEach(fs, dr, names).Done?
    decreases |names|
  {
    var d := Resolve(fs, dr);
    if names != [] {
      var n := names[0];
      JoinExtends(d, n);
      var f := RemoveEntry(fs, d, n).fs;
      assert Resolve(f, dr) == d;
      forall m | m in names[1..] ensures Join(d, m) in f && !f[Join(d, m)].Dir? {
        assert m in names;
        var k :| 1 <= k < |names| && names[k] == m;
        assert m != n;
        if Join(d, m) == Join(d, n) { JoinInjective(d, m, n); }
        JoinExtends(d, m);
      }
      assert AllValid(names[1..]) by {
        forall m | m in names[1..] ensures ValidName(m) { assert m in names; }
      }
      RemoveEachSucceeds(f, dr, names[1..]);
    }
  }

  /** `delete_dir` succeeds exactly on a real directory whose entries are
      all existing non-directories; then the directory and those entries
      are gone and nothing else is (its parent just lists it no more). */
  lemma DeleteDirOutcome(fs: FS, dr: string)
    requires WellFormed(fs)
    requires dr in fs && fs[dr].Dir? && Distinct(fs[dr].entries)
    ensures DeleteDir(fs, dr).Done? <==>
      forall n :: n in fs[dr].entries ==> Join(dr, n) in fs && !fs[Join(dr, n)].Dir?
    ensures DeleteDir(fs, dr).Done? ==>
      DeleteDir(fs, dr).fs.Keys == fs.Keys - {dr} - Targets(dr, fs[dr].entries)
    ensures DeleteDir(fs, dr).Done? ==>
      forall p :: p in DeleteDir(fs, dr).fs && p != Parent(dr) ==> DeleteDir(fs, dr).fs[p] == fs[p]
    ensures DeleteDir(fs, dr).Done? ==>
      forall p :: p in DeleteDir(fs, dr).fs ==> (DeleteDir(fs, dr).fs[p].Dir? <==> fs[p].Dir?)
  {
    var names := fs[dr].entries;
    assert AllValid(names);
    if forall n :: n in names ==> Join(dr, n) in fs && !fs[Join(dr, n)].Dir? {
      DeleteDirSucceeds(fs, dr);
      DeleteDirFrame(fs, dr);
    } else {
      assert Resolve(fs, dr) == dr;
      var n :| n in names && !(Join(dr, n) in fs && !fs[Join(dr, n)].Dir?);
      JoinExtends(dr, n);
      RemoveEachDirEntry(fs, dr, names, n);
    }
  }

  /** A real directory of distinct, existing non-directories is deleted
      together with exactly those entries. */
  lemma DeleteDirSucceeds(fs: FS, dr: string)
    requires dr in fs && fs[dr].Dir? && Distinct(fs[dr].entries) && AllValid(fs[dr].entries)
    requires forall n :: n in fs[dr].entries ==> Join(dr, n) in fs && !fs[Join(dr, n)].Dir?
    ensures DeleteDir(fs, dr).Done?
    ensures DeleteDir(fs, dr).fs.Keys == fs.Keys - {dr} - Targets(dr, fs[dr].entries)
  {
    var names := fs[dr].entries;
    assert Resolve(fs, dr) == dr;
    RemoveEachFrame(fs, dr, names);
    RemoveEachSucceeds(fs, dr, names);
    var r := RemoveEach(fs, dr, names);
    HeadIsMember(r.fs[dr].entries);
    assert fs.Keys - r.fs.Keys == Targets(dr, names);
  }

  /** After a successful `delete_dir`, every surviving node keeps its value,
      except that the parent's entry list loses the directory. */
  lemma DeleteDirFrame(fs: FS, dr: string)
    requires dr in fs && fs[dr].Dir? && AllValid(fs[dr].entries)
    requires DeleteDir(fs, dr).Done?
    ensures DeleteDir(fs, dr).fs.Keys <= fs.Keys
    ensures forall p :: p in DeleteDir(fs, dr).fs && p != Parent(dr) ==> DeleteDir(fs, dr).fs[p] == fs[p]
    ensures forall p :: p in DeleteDir(fs, dr).fs ==> (DeleteDir(fs, dr).fs[p].Dir? <==> fs[p].Dir?)
  {
    var names := fs[dr].entries;
    assert Resolve(fs, dr) == dr;
    RemoveEachFrame(fs, dr, names);
    var r := RemoveEach(fs, dr, names);
    var g := r.fs - {dr};
    assert DeleteDir(fs, dr).fs == DropEntry(g, Parent(dr), Base(dr));
    assert forall p :: p in g ==> g[p] == fs[p];
  }

  lemma HeadIsMember(s: seq<string>)
    ensures s != [] ==> s[0] in s
  {
  }

  /** A listed entry that is missing or a directory stops the loop. */
  lemma {:induction false} RemoveEachDirEntry(fs: FS, dr: string, names: seq<string>, n: string)
    requires AllValid(names)
    requires !StrictPrefix(Resolve(fs, dr), dr)
    requires n in names
    requires Join(Resolve(fs, dr), n) in fs ==> fs[Join(Resolve(fs, dr), n)].Dir?
    requires Resolve(fs, dr) in fs ==> Join(Resolve(fs, dr), n) != Resolve(fs, dr)
    ensures RemoveEach(fs, dr, names).Failed?
    decreases |names|
  {
    var d := Resolve(fs, dr);
    var m := names[0];
    JoinExtends(d, m);
    JoinExtends(d, n);
    if m != n {
      var e := RemoveEntry(fs, d, m);
      if e.Done? {
        var f := e.fs;
        assert Resolve(f, dr) == d;
        if Join(d, n) == Join(d, m) { JoinInjective(d, n, m); }
        assert n in names[1..];
        assert AllValid(names[1..]) by {
          forall x | x in names[1..] ensures ValidName(x) { assert x in names; }
        }
        RemoveEachDirEntry(f, dr, names[1..], n);
      }
    }
  }

  /** The stale branch run a second time: `gv` is already a link into the
      archive, `os.listdir` follows it, every archived file of that version
      is removed, and only then `os.rmdir` raises on the link. `av` is the
      directory the link resolves to. */
  lemma StaleRerunDestroysArchive(fs: FS, gv: string, av: string)
    requires WellFormed(fs)
    requires IsLink(fs, gv) && Resolve(fs, gv) == av
    requires av in fs && fs[av].Dir? && Distinct(fs[av].entries)
    requires forall n :: n in fs[av].entries ==> Join(av, n) in fs && fs[Join(av, n)].File?
    requires !StrictPrefix(av, gv)
    ensures DeleteDir(fs, gv).Failed? && DeleteDir(fs, gv).error == NotADirectory
    ensures DeleteDir(fs, gv).fs.Keys == fs.Keys - Targets(av, fs[av].entries)
    ensures gv in DeleteDir(fs, gv).fs
  {
    var names := fs[av].entries;
    assert AllValid(names);
    RemoveEachFrame(fs, gv, names);
    RemoveEachSucceeds(fs, gv, names);
    var f := RemoveEach(fs, gv, names).fs;
    JoinTargetsAvoid(av, names, gv);
    assert gv in f && f[gv] == fs[gv];
  }

  lemma JoinTargetsAvoid(d: string, names: seq<string>, p: string)
    requires AllValid(names) && !StrictPrefix(d, p)
    ensures p !in Targets(d, names)
  {
    forall n | n in names ensures Join(d, n) != p { JoinExtends(d, n); }
  }

  /** A successful replacement leaves `gv` a link to `av`, with every entry
      it held and nothing outside `gv` removed. */
  lemma RelinkOutcome(fs: FS, av: string, gv: string)
    requires WellFormed(fs)
    requires gv in fs && fs[gv].Dir? && Distinct(fs[gv].entries)
    ensures var r := Relink(fs, av, gv);
      r.Done? ==>
        && r.fs[gv] == Symlink(av)
        && r.fs.Keys == fs.Keys - Targets(gv, fs[gv].entries)
        && (forall p :: p in r.fs && p != gv && p != Parent(gv) ==> r.fs[p] == fs[p])
        && forall n :: n in fs[gv].entries ==> Join(gv, n) in fs && !fs[Join(gv, n)].Dir?
  {
    DeleteDirOutcome(fs, gv);
    var d := DeleteDir(fs, gv);
    if d.Done? {
      assert gv !in d.fs;
      assert AllValid(fs[gv].entries);
      JoinTargetsAvoid(gv, fs[gv].entries, gv);
    }
  }

  /** Stale cleanup and deduplication succeed on a flat version directory
      inside a real dataset directory: `gv` ends as a link to `av`. */
  lemma RelinkSucceeds(fs: FS, av: string, gws: string, v: string)
    requires WellFormed(fs) && Normal(gws) && ValidName(v) && av != ""
    requires gws in fs && fs[gws].Dir?
    requires var gv := Join(gws, v);
      && gv in fs && fs[gv].Dir? && Distinct(fs[gv].entries)
      && forall n :: n in fs[gv].entries ==> Join(gv, n) in fs && !fs[Join(gv, n)].Dir?
    ensures Relink(fs, av, Join(gws, v)).Done?
    ensures Relink(fs, av, Join(gws, v)).fs[Join(gws, v)] == Symlink(av)
  {
    var gv := Join(gws, v);
    var names := fs[gv].entries;
    assert AllValid(names);
    DeleteDirOutcome(fs, gv);
    SplitJoin(gws, v);
    JoinExtends(gws, v);
    JoinTargetsAvoid(gv, names, gws);
    var d := DeleteDir(fs, gv).fs;
    assert gws in d && d[gws].Dir?;
  }

  /** The removal loop, `delete_dir` and the replacement keep every
      directory entry a valid name. */
  lemma {:induction false} RemoveEachWellFormed(fs: FS, dr: string, names: seq<string>)
    requires WellFormed(fs)
    ensures WellFormed(RemoveEach(fs, dr, names).fs)
    decreases |names|
  {
    if names != [] {
      MutationsKeepWellFormed(fs, Resolve(fs, dr), names[0], dr, dr);
      var e := RemoveEntry(fs, Resolve(fs, dr), names[0]);
      if e.Done? {
        RemoveEachWellFormed(e.fs, dr, names[1..]);
      }
    }
  }

  lemma RelinkWellFormed(fs: FS, av: string, gv: string)
    requires WellFormed(fs)
    ensures WellFormed(DeleteDir(fs, gv).fs)
    ensures WellFormed(Relink(fs, av, gv).fs)
  {
    if ListDir(fs, gv).Ok? {
      var names := ListDir(fs, gv).value;
      RemoveEachWellFormed(fs, gv, names);
      var f := RemoveEach(fs, gv, names).fs;
      MutationsKeepWellFormed(f, gv, gv, gv, av);
      var d := DeleteDir(fs, gv).fs;
      MutationsKeepWellFormed(d, gv, gv, gv, av);
    }
  }
}
