/** The read-only views of the tree: `nested_list`, `os.walk` with
    `identify_dirs`, and `find_versions` (symlark/symlark.py:19-31, 89-99). */
module Scan {
  import opened Outcomes
  import opened Strings
  import opened Paths
  import opened FileSystem

  lemma EntriesValid(fs: FS, d: string)
    requires WellFormed(fs) && ListDir(fs, d).Ok?
    ensures AllValid(ListDir(fs, d).value)
  {
  }

  /** The path `nested_list` appends for a non-directory entry: with
      `remove_base` set, every occurrence of the base is cut out (`""`
      stands for the default `remove_base=False`). */
  function Shown(p: string, base: string): (r: string)
    ensures |r| <= |p|
  {
    if base == "" then p else ReplaceAll(p, base, "")
  }

  /** `nested_list(d, remove_base=base)`: the sorted non-directory entries
      of `d` and, recursively, of its subdirectories (whose own calls get no
      base). A subdirectory is entered when its node is a directory; a link
      to a directory is listed like a file. */
  function Listing(fs: FS, d: string, base: string): (r: Outcome<seq<string>>)
    requires WellFormed(fs)
    ensures r.Ok? ==> Sorted(r.value)
    decreases Below(fs, d), 1, 0
  {
    match ListDir(fs, d)
    case Raised(e) => Raised(e)
    case Ok(names) =>
      EntriesValid(fs, d);
      match Gather(fs, d, names, base)
      case Raised(e) => Raised(e)
      case Ok(r) => Ok(Sort(r))
  }

  /** The accumulator `r` of `nested_list` after the loop has visited
      `names`, in order. */
  function Gather(fs: FS, d: string, names: seq<string>, base: string): Outcome<seq<string>>
    requires WellFormed(fs) && AllValid(names)
    decreases Below(fs, d), 0, |names|
  {
    if names == [] then Ok([])
    else
      var last := names[|names| - 1];
      assert last in names;
      match Gather(fs, d, names[..|names| - 1], base)
      case Raised(e) => Raised(e)
      case Ok(r) => Step(fs, d, last, base, r)
  }

  /** One iteration of the loop of `nested_list` on entry `i`. */
  function Step(fs: FS, d: string, i: string, base: string, r: seq<string>): Outcome<seq<string>>
    requires WellFormed(fs) && ValidName(i)
    decreases Below(fs, d), 0, 0
  {
    var pth := Join(d, i);
    if pth in fs && fs[pth].Dir? then
      BelowShrinks(fs, d, i);
      match Listing(fs, pth, "")
      case Raised(e) => Raised(e)
      case Ok(sub) => Ok(r + sub)
    else Ok(r + [Shown(pth, base)])
  }

  /** The loop of `nested_list` over one more entry: one more step. */
  lemma GatherExtend(fs: FS, d: string, names: seq<string>, k: nat, base: string)
    requires WellFormed(fs) && AllValid(names) && k < |names|
    ensures AllValid(names[..k]) && AllValid(names[..k + 1]) && ValidName(names[k])
    ensures Gather(fs, d, names[..k], base).Raised? ==>
      Gather(fs, d, names[..k + 1], base) == Gather(fs, d, names[..k], base)
    ensures Gather(fs, d, names[..k], base).Ok? ==>
      Gather(fs, d, names[..k + 1], base) == Step(fs, d, names[k], base, Gather(fs, d, names[..k], base).value)
  {
    assert names[k] in names;
    assert names[..k + 1][..k] == names[..k] && names[..k + 1][k] == names[k];
    assert AllValid(names[..k + 1]) by {
      forall n | n in names[..k + 1] ensures ValidName(n) { assert n in names; }
    }
  }

  /** `nested_list` raises only when `d` itself cannot be listed: every
      directory it descends into is a directory node. */
  lemma {:induction false} ListingRaisesOnlyAtTop(fs: FS, d: string, base: string)
    requires WellFormed(fs)
    ensures Listing(fs, d, base).Ok? <==> IsDir(fs, d)
    decreases Below(fs, d), 1, 0
  {
    if IsDir(fs, d) {
      var names := ListDir(fs, d).value;
      EntriesValid(fs, d);
      GatherTotal(fs, d, names, base);
    }
  }

  lemma {:induction false} GatherTotal(fs: FS, d: string, names: seq<string>, base: string)
    requires WellFormed(fs) && AllValid(names)
    ensures Gather(fs, d, names, base).Ok?
    decreases Below(fs, d), 0, |names|
  {
    if names != [] {
      var last := names[|names| - 1];
      assert last in names;
      assert AllValid(names[..|names| - 1]) by {
        forall n | n in names[..|names| - 1] ensures ValidName(n) { assert n in names; }
      }
      GatherTotal(fs, d, names[..|names| - 1], base);
      var pth := Join(d, last);
      if pth in fs && fs[pth].Dir? {
        BelowShrinks(fs, d, last);
        ListingRaisesOnlyAtTop(fs, pth, "");
      }
    }
  }

  /** Without a base, everything `nested_list` returns lies strictly below
      `d` and is not a directory node. */
  lemma {:induction false} ListingOnlyNonDirectories(fs: FS, d: string, x: string)
    requires WellFormed(fs)
    requires Listing(fs, d, "").Ok? && x in Listing(fs, d, "").value
    ensures StrictPrefix(d, x) && !(x in fs && fs[x].Dir?)
    decreases Below(fs, d), 1, 0
  {
    var names := ListDir(fs, d).value;
    EntriesValid(fs, d);
    var g := Gather(fs, d, names, "").value;
    assert x in multiset(g) by { assert x in multiset(Sort(g)); }
    GatherOnlyNonDirectories(fs, d, names, x);
  }

  lemma {:induction false} GatherOnlyNonDirectories(fs: FS, d: string, names: seq<string>, x: string)
    requires WellFormed(fs) && AllValid(names)
    requires Gather(fs, d, names, "").Ok? && x in Gather(fs, d, names, "").value
    ensures StrictPrefix(d, x) && !(x in fs && fs[x].Dir?)
    decreases Below(fs, d), 0, |names|
  {
    var last := names[|names| - 1];
    assert last in names;
    var front := names[..|names| - 1];
    assert AllValid(front) by {
      forall n | n in front ensures ValidName(n) { assert n in names; }
    }
    var r := Gather(fs, d, front, "").value;
    var pth := Join(d, last);
    JoinExtends(d, last);
    if x in r {
      GatherOnlyNonDirectories(fs, d, front, x);
    } else if pth in fs && fs[pth].Dir? {
      BelowShrinks(fs, d, last);
      var sub := Listing(fs, pth, "").value;
      assert x in sub;
      ListingOnlyNonDirectories(fs, pth, x);
      StrictPrefixTransitive(d, pth, x);
    }
  }

  /** `nested_list` descends into every subdirectory: each non-directory
      entry of `d` is listed (after base removal), and everything listed
      under a subdirectory is listed under `d`. */
  lemma ListingComplete(fs: FS, d: string, base: string, i: string)
    requires WellFormed(fs) && IsDir(fs, d)
    requires i in ListDir(fs, d).value
    ensures Listing(fs, d, base).Ok?
    ensures var pth := Join(d, i);
      if pth in fs && fs[pth].Dir? then
        Listing(fs, pth, "").Ok? &&
        forall x :: x in Listing(fs, pth, "").value ==> x in Listing(fs, d, base).value
      else Shown(pth, base) in Listing(fs, d, base).value
  {
    var names := ListDir(fs, d).value;
    EntriesValid(fs, d);
    ListingRaisesOnlyAtTop(fs, d, base);
    var k :| 0 <= k < |names| && names[k] == i;
    GatherContains(fs, d, names, base, k);
    var g := Gather(fs, d, names, base).value;
    var pth := Join(d, i);
    if pth in fs && fs[pth].Dir? {
      BelowShrinks(fs, d, i);
      ListingRaisesOnlyAtTop(fs, pth, "");
      forall x | x in Listing(fs, pth, "").value ensures x in Listing(fs, d, base).value {
        assert x in multiset(g);
        assert x in multiset(Sort(g));
      }
    } else {
      assert Shown(pth, base) in multiset(g);
      assert Shown(pth, base) in multiset(Sort(g));
    }
  }

  lemma {:induction false} GatherContains(fs: FS, d: string, names: seq<string>, base: string, k: nat)
    requires WellFormed(fs) && AllValid(names) && k < |names|
    ensures Gather(fs, d, names, base).Ok?
    ensures var pth := Join(d, names[k]);
      var g := Gather(fs, d, names, base).value;
      if pth in fs && fs[pth].Dir? then
        Listing(fs, pth, "").Ok? && forall x :: x in Listing(fs, pth, "").value ==> x in g
      else Shown(pth, base) in g
    decreases |names|
  {
    GatherTotal(fs, d, names, base);
    var front := names[..|names| - 1];
    var last := names[|names| - 1];
    assert last in names;
    assert AllValid(front) by {
      forall n | n in front ensures ValidName(n) { assert n in names; }
    }
    GatherTotal(fs, d, front, base);
    var pth := Join(d, last);
    if pth in fs && fs[pth].Dir? {
      BelowShrinks(fs, d, last);
      ListingRaisesOnlyAtTop(fs, pth, "");
    }
    if k < |names| - 1 {
      GatherContains(fs, d, front, base, k);
      assert front[k] == names[k];
    }
  }

  /** The `subdirs` `os.walk` reports for `dr` include links to
      directories; `identify_dirs` keeps `dr` when one of them matches
      `re.match(r"v\d{8}", ...)`. */
  predicate HasVersionSubdir(fs: FS, dr: string) {
    dr in fs && fs[dr].Dir? &&
    exists n :: n in fs[dr].entries && IsDir(fs, Join(dr, n)) && RegexVersion(n)
  }

  /** The directory paths `os.walk(top)` yields, top-down in listing order.
      It does not descend into links to directories. */
  function Walk(fs: FS, top: string): (r: seq<string>)
    requires WellFormed(fs)
    ensures r != [] <==> top in fs && fs[top].Dir?
    ensures r != [] ==> r[0] == top
    decreases Below(fs, top), 1, 0
  {
    if top in fs && fs[top].Dir? then [top] + WalkEach(fs, top, fs[top].entries) else []
  }

  function WalkEach(fs: FS, top: string, names: seq<string>): seq<string>
    requires WellFormed(fs) && AllValid(names)
    decreases Below(fs, top), 0, |names|
  {
    if names == [] then []
    else
      assert names[0] in names;
      var child := Join(top, names[0]);
      assert AllValid(names[1..]) by {
        forall n | n in names[1..] ensures ValidName(n) { assert n in names; }
      }
      var here := if child in fs && fs[child].Dir? then BelowShrinks(fs, top, names[0]); Walk(fs, child) else [];
      here + WalkEach(fs, top, names[1..])
  }

  /** Every walked path is a directory node at or below `top`. */
  lemma {:induction false} WalkBelow(fs: FS, top: string, x: string)
    requires WellFormed(fs) && x in Walk(fs, top)
    ensures x in fs && fs[x].Dir? && (x == top || StrictPrefix(top, x))
    decreases Below(fs, top), 1, 0
  {
    if x != top {
      WalkEachBelow(fs, top, fs[top].entries, x);
    }
  }

  lemma {:induction false} WalkEachBelow(fs: FS, top: string, names: seq<string>, x: string)
    requires WellFormed(fs) && AllValid(names) && x in WalkEach(fs, top, names)
    ensures x in fs && fs[x].Dir? && StrictPrefix(top, x)
    decreases Below(fs, top), 0, |names|
  {
    assert names[0] in names;
    var child := Join(top, names[0]);
    assert AllValid(names[1..]) by {
      forall n | n in names[1..] ensures ValidName(n) { assert n in names; }
    }
    if child in fs && fs[child].Dir? && x in Walk(fs, child) {
      BelowShrinks(fs, top, names[0]);
      WalkBelow(fs, child, x);
      JoinExtends(top, names[0]);
      if x != child { StrictPrefixTransitive(top, child, x); }
    } else {
      WalkEachBelow(fs, top, names[1..], x);
    }
  }

  /** The accumulator of `identify_dirs` after the walked paths `walked`. */
  function KeepRoots(fs: FS, walked: seq<string>): (r: seq<string>)
    ensures |r| <= |walked|
    decreases |walked|
  {
    if walked == [] then []
    else
      var dr := walked[|walked| - 1];
      KeepRoots(fs, walked[..|walked| - 1]) + (if HasVersionSubdir(fs, dr) then [dr] else [])
  }

  /** One more walked directory extends the accumulator by at most it. */
  lemma KeepRootsSnoc(fs: FS, walked: seq<string>, k: nat)
    requires k < |walked|
    ensures KeepRoots(fs, walked[..k + 1]) ==
      KeepRoots(fs, walked[..k]) + (if HasVersionSubdir(fs, walked[k]) then [walked[k]] else [])
  {
    assert walked[..k + 1][..k] == walked[..k] && walked[..k + 1][k] == walked[k];
  }

  /** `identify_dirs(d)`. */
  function DatasetRoots(fs: FS, d: string): (r: seq<string>)
    requires WellFormed(fs)
    ensures !IsDir(fs, d) ==> r == []
  {
    KeepRoots(fs, Walk(fs, d))
  }

  lemma {:induction false} KeepRootsMembers(fs: FS, walked: seq<string>, x: string)
    ensures x in KeepRoots(fs, walked) <==> x in walked && HasVersionSubdir(fs, x)
    decreases |walked|
  {
    if walked != [] {
      var front := walked[..|walked| - 1];
      KeepRootsMembers(fs, front, x);
      assert walked == front + [walked[|walked| - 1]];
    }
  }

  /** `identify_dirs` returns exactly the walked directories with an
      immediate subdirectory (or link to one) whose name starts with `v`
      and eight digits; each is a directory at or below `d`. */
  lemma DatasetRootsExact(fs: FS, d: string, x: string)
    requires WellFormed(fs)
    ensures x in DatasetRoots(fs, d) <==> x in Walk(fs, d) && HasVersionSubdir(fs, x)
    ensures x in DatasetRoots(fs, d) ==> x in fs && fs[x].Dir? && (x == d || StrictPrefix(d, x))
  {
    KeepRootsMembers(fs, Walk(fs, d), x);
    if x in Walk(fs, d) { WalkBelow(fs, d, x); }
  }

  /** `[os.path.basename(v) for v in glob.glob(f"{dr}/v????????")]` over the
      entries `names` of `dr`. */
  function GlobVersions(dr: string, names: seq<string>): (r: seq<string>)
    requires AllValid(names)
    ensures forall v :: v in r <==> v in names && GlobVersion(v)
  {
    if names == [] then []
    else
      assert names[0] in names;
      BaseJoin(dr, names[0]);
      assert AllValid(names[1..]) by {
        forall n | n in names[1..] ensures ValidName(n) { assert n in names; }
      }
      assert names == [names[0]] + names[1..];
      (if GlobVersion(names[0]) then [Base(Join(dr, names[0]))] else []) + GlobVersions(dr, names[1..])
  }

  /** `find_versions(dr)`: the names of the entries of `dr` that match
      `v????????`, ascending; a missing or non-directory `dr` gives none
      (glob swallows the error), and `latest` is never among them. */
  function FindVersions(fs: FS, dr: string): (r: seq<string>)
    requires WellFormed(fs)
    ensures Sorted(r)
    ensures forall v :: v in r <==> IsDir(fs, dr) && v in ListDir(fs, dr).value && GlobVersion(v)
    ensures "latest" !in r
  {
    match ListDir(fs, dr)
    case Raised(_) => []
    case Ok(names) =>
      EntriesValid(fs, dr);
      var g := GlobVersions(dr, names);
      assert forall v :: v in Sort(g) <==> v in multiset(Sort(g));
      assert forall v :: v in g <==> v in multiset(g);
      Sort(g)
  }
}
