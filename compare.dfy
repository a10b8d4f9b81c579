/** `dirs_match` (symlark/symlark.py:34-59): listing comparison, then a
    per-file size check and, for equal sizes only, a digest check, with a
    running tally of mismatches. */
module Compare {
  import opened Outcomes
  import opened Strings
  import opened Paths
  import opened FileSystem
  import opened Scan

  /** The error tally `errs`, and the files whose digests were computed, in
      the order `md5` read them. */
  datatype Tally = Tally(errs: nat, hashed: seq<string>)

  /** What `dirs_match` returns: `None` when the listings differ, otherwise
      `errs == 0` from the finished tally. */
  datatype Verdict = ListingsDiffer | Compared(tally: Tally)

  /** The engine's `elif dirs_match(...)`: only a `True` result is truthy. */
  predicate Truthy(v: Outcome<Verdict>) {
    v.Ok? && v.value.Compared? && v.value.tally.errs == 0
  }

  /** One iteration of the per-file loop on the pair `(i1, i2)`. */
  function PairStep(fs: FS, i1: string, i2: string, t: Tally): (r: Outcome<Tally>)
    ensures !IsFile(fs, i1) ==> r == Ok(t)
    ensures r.Ok? ==> t.errs <= r.value.errs <= t.errs + 1
    ensures r.Raised? ==> IsFile(fs, i1) && (Size(fs, i2).Raised? || Md5(fs, i2).Raised?)
  {
    if !IsFile(fs, i1) then Ok(t)
    else
      var s1 := Size(fs, i1).value;
      match Size(fs, i2)
      case Raised(e) => Raised(e)
      case Ok(s2) =>
        if s1 != s2 then Ok(Tally(t.errs + 1, t.hashed))
        else
          var m1 := Md5(fs, i1).value;
          match Md5(fs, i2)
          case Raised(e) => Raised(e)
          case Ok(m2) => Ok(Tally(if m1 != m2 then t.errs + 1 else t.errs, t.hashed + [i1, i2]))
  }

  /** The tally after the per-file loop has visited `pairs`, in order. */
  function TallyOf(fs: FS, pairs: seq<(string, string)>): (r: Outcome<Tally>)
    ensures r.Ok? ==> r.value.errs <= |pairs|
    decreases |pairs|
  {
    if pairs == [] then Ok(Tally(0, []))
    else
      var (i1, i2) := pairs[|pairs| - 1];
      match TallyOf(fs, pairs[..|pairs| - 1])
      case Raised(e) => Raised(e)
      case Ok(t) => PairStep(fs, i1, i2, t)
  }

  /** Once the loop has raised, the rest of it does not run. */
  lemma {:induction false} TallyRaisedStays(fs: FS, pairs: seq<(string, string)>, k: nat)
    requires k <= |pairs| && TallyOf(fs, pairs[..k]).Raised?
    ensures TallyOf(fs, pairs) == TallyOf(fs, pairs[..k])
    decreases |pairs|
  {
    if k < |pairs| {
      var front := pairs[..|pairs| - 1];
      assert front[..k] == pairs[..k];
      TallyRaisedStays(fs, front, k);
    } else {
      assert pairs[..k] == pairs;
    }
  }

  /** The two files of a pair differ in what `dirs_match` checks. */
  predicate Mismatch(fs: FS, i1: string, i2: string) {
    IsFile(fs, i1) && (Size(fs, i1) != Size(fs, i2) || Md5(fs, i1) != Md5(fs, i2))
  }

  /** The pairs whose left side is a file that differs from its partner. */
  function Mismatches(fs: FS, pairs: seq<(string, string)>): seq<(string, string)> {
    if pairs == [] then []
    else
      (if Mismatch(fs, pairs[0].0, pairs[0].1) then [pairs[0]] else []) + Mismatches(fs, pairs[1..])
  }

  lemma {:induction false} MismatchesAppend(fs: FS, a: seq<(string, string)>, b: seq<(string, string)>)
    ensures Mismatches(fs, a + b) == Mismatches(fs, a) + Mismatches(fs, b)
    decreases |a|
  {
    if a == [] {
      assert a + b == b;
    } else {
      var head := MismatchesFront(fs, a, b);
      MismatchesAppend(fs, a[1..], b);
      assert head + (Mismatches(fs, a[1..]) + Mismatches(fs, b))
        == (head + Mismatches(fs, a[1..])) + Mismatches(fs, b);
    }
  }

  /** The first pair of a non-empty `a` contributes the same to `a` and to `a + b`. */
  lemma MismatchesFront(fs: FS, a: seq<(string, string)>, b: seq<(string, string)>)
      returns (head: seq<(string, string)>)
    requires a != []
    ensures Mismatches(fs, a + b) == head + Mismatches(fs, a[1..] + b)
    ensures Mismatches(fs, a) == head + Mismatches(fs, a[1..])
  {
    head := if Mismatch(fs, a[0].0, a[0].1) then [a[0]] else [];
    assert (a + b)[0] == a[0];
    assert (a + b)[1..] == a[1..] + b;
  }

  /** Each mismatching pair adds exactly one to the tally, and a digest is
      computed only for the two files of a pair whose sizes are equal. */
  lemma {:induction false} TallyCountsMismatches(fs: FS, pairs: seq<(string, string)>)
    requires TallyOf(fs, pairs).Ok?
    ensures TallyOf(fs, pairs).value.errs == |Mismatches(fs, pairs)|
    ensures forall p :: p in TallyOf(fs, pairs).value.hashed ==>
      exists k :: 0 <= k < |pairs| && p in {pairs[k].0, pairs[k].1} &&
        IsFile(fs, pairs[k].0) && Size(fs, pairs[k].0) == Size(fs, pairs[k].1)
    decreases |pairs|
  {
    if pairs != [] {
      var front := pairs[..|pairs| - 1];
      var (i1, i2) := pairs[|pairs| - 1];
      TallyCountsMismatches(fs, front);
      assert pairs == front + [(i1, i2)];
      MismatchesAppend(fs, front, [(i1, i2)]);
      var t := TallyOf(fs, front).value;
      forall p | p in TallyOf(fs, pairs).value.hashed
        ensures exists k :: (0 <= k < |pairs| && p in {pairs[k].0, pairs[k].1} &&
          IsFile(fs, pairs[k].0) && Size(fs, pairs[k].0) == Size(fs, pairs[k].1))
      {
        if p in t.hashed {
          var k :| 0 <= k < |front| && p in {front[k].0, front[k].1} &&
            IsFile(fs, front[k].0) && Size(fs, front[k].0) == Size(fs, front[k].1);
          assert pairs[k] == front[k];
        } else {
          assert pairs[|pairs| - 1] == (i1, i2);
        }
      }
    }
  }

  /** A clean tally means every pair whose left side is a file has a
      partner of the same size and digest. */
  lemma CleanTallyMeansEqualFiles(fs: FS, pairs: seq<(string, string)>)
    requires TallyOf(fs, pairs).Ok? && TallyOf(fs, pairs).value.errs == 0
    ensures forall k :: 0 <= k < |pairs| && IsFile(fs, pairs[k].0) ==>
      Size(fs, pairs[k].1) == Size(fs, pairs[k].0) && Md5(fs, pairs[k].1) == Md5(fs, pairs[k].0)
  {
    TallyCountsMismatches(fs, pairs);
    forall k | 0 <= k < |pairs| && IsFile(fs, pairs[k].0)
      ensures Size(fs, pairs[k].1) == Size(fs, pairs[k].0) && Md5(fs, pairs[k].1) == Md5(fs, pairs[k].0)
    {
      NoMismatchAt(fs, pairs, k);
    }
  }

  /** With no mismatching pair overall, no single pair mismatches. */
  lemma NoMismatchAt(fs: FS, pairs: seq<(string, string)>, k: nat)
    requires Mismatches(fs, pairs) == [] && k < |pairs|
    ensures !Mismatch(fs, pairs[k].0, pairs[k].1)
  {
    var p := pairs[k];
    assert pairs == pairs[..k] + [p] + pairs[k + 1..];
    MismatchesAppend(fs, pairs[..k] + [p], pairs[k + 1..]);
    MismatchesAppend(fs, pairs[..k], [p]);
    assert Mismatches(fs, [p]) == [];
    assert [p][1..] == [];
  }

  /** When every pair whose left side is a file has a partner with the same
      size and digest, the loop finishes with a clean tally. */
  lemma {:induction false} EqualFilesMeanCleanTally(fs: FS, pairs: seq<(string, string)>)
    requires forall k :: 0 <= k < |pairs| && IsFile(fs, pairs[k].0) ==>
      Size(fs, pairs[k].1) == Size(fs, pairs[k].0) && Md5(fs, pairs[k].1) == Md5(fs, pairs[k].0)
    ensures TallyOf(fs, pairs).Ok? && TallyOf(fs, pairs).value.errs == 0
    decreases |pairs|
  {
    if pairs != [] {
      var front := pairs[..|pairs| - 1];
      forall k | 0 <= k < |front| && IsFile(fs, front[k].0)
        ensures Size(fs, front[k].1) == Size(fs, front[k].0) && Md5(fs, front[k].1) == Md5(fs, front[k].0)
      {
        assert front[k] == pairs[k];
      }
      EqualFilesMeanCleanTally(fs, front);
    }
  }

  /** The shared shape of `dirs_match`, with the per-file loop run over
      `pairs`. */
  function Compare(fs: FS, d1: string, d2: string, base1: string, base2: string,
                   pairs: seq<(string, string)>): Outcome<Verdict>
    requires WellFormed(fs)
  {
    match Listing(fs, d1, base1)
    case Raised(e) => Raised(e)
    case Ok(l1) =>
      match Listing(fs, d2, base2)
      case Raised(e) => Raised(e)
      case Ok(l2) =>
        if l1 != l2 then Ok(ListingsDiffer)
        else match TallyOf(fs, pairs)
          case Raised(e) => Raised(e)
          case Ok(t) => Ok(Compared(t))
  }

  /** What the source loops over: `for i in d1` takes the CHARACTERS of the
      path string `d1`, joined onto `d1` and onto `d2`. */
  function CharPairs(d1: string, d2: string): (r: seq<(string, string)>)
    ensures |r| == |d1|
    ensures forall k :: 0 <= k < |d1| ==> r[k] == (Join(d1, [d1[k]]), Join(d2, [d1[k]]))
  {
    seq(|d1|, k requires 0 <= k < |d1| => (Join(d1, [d1[k]]), Join(d2, [d1[k]])))
  }

  /** The paths the loop as written builds can name a file only if the file's
      name is one character long: no pair ever reaches an entry whose name
      has two or more characters, in either directory. */
  lemma CharPairsMissLongNames(d1: string, d2: string)
    ensures forall k, x :: 0 <= k < |d1| && ValidName(x) && |x| > 1 ==>
      CharPairs(d1, d2)[k].0 != Join(d1, x) && CharPairs(d1, d2)[k].1 != Join(d2, x)
  {
    forall k, x | 0 <= k < |d1| && ValidName(x) && |x| > 1
      ensures CharPairs(d1, d2)[k].0 != Join(d1, x) && CharPairs(d1, d2)[k].1 != Join(d2, x)
    {
      var c := [d1[k]];
      if d1[k] == '/' {
        assert Join(d1, c) == c && Join(d2, c) == c;
        assert x[0] != '/' by { assert x[0] in x; }
        assert |Join(d1, x)| >= |x| && |Join(d2, x)| >= |x|;
      } else {
        assert ValidName(c);
        if Join(d1, c) == Join(d1, x) { JoinInjective(d1, c, x); }
        if Join(d2, c) == Join(d2, x) { JoinInjective(d2, c, x); }
      }
    }
  }

  /** `dirs_match` as written. */
  function DirsMatchAsWritten(fs: FS, d1: string, d2: string, base1: string, base2: string): (v: Outcome<Verdict>)
    requires WellFormed(fs)
    ensures v.Ok? ==> Listing(fs, d1, base1).Ok? && Listing(fs, d2, base2).Ok?
  {
    Compare(fs, d1, d2, base1, base2, CharPairs(d1, d2))
  }

  /** The archive counterpart of a working path below `d1`. */
  function Rebase(p: string, d1: string, d2: string): string {
    if |d1| <= |p| then d2 + p[|d1|..] else p
  }

  function RebasePairs(files: seq<string>, d1: string, d2: string): (r: seq<(string, string)>)
    ensures |r| == |files|
    ensures forall k :: 0 <= k < |files| ==> r[k] == (files[k], Rebase(files[k], d1, d2))
  {
    seq(|files|, k requires 0 <= k < |files| => (files[k], Rebase(files[k], d1, d2)))
  }

  /** The evident intent: visit every file `nested_list(d1)` finds, paired
      with the same relative path under `d2`. When `d1` is a link, the
      operating system reads every path below it through the link's target,
      so the files are listed and addressed from the directory `d1`
      resolves to. */
  function FilePairs(fs: FS, d1: string, d2: string): seq<(string, string)>
    requires WellFormed(fs)
  {
    var top := Resolve(fs, d1);
    match Listing(fs, top, "")
    case Raised(_) => []
    case Ok(files) => RebasePairs(files, top, d2)
  }

  /** `dirs_match` with the per-file loop over the listed files: the
      definition the engine uses. */
  function DirsMatch(fs: FS, d1: string, d2: string, base1: string, base2: string): (v: Outcome<Verdict>)
    requires WellFormed(fs)
    ensures v.Ok? ==> Listing(fs, d1, base1).Ok? && Listing(fs, d2, base2).Ok?
    ensures v == Ok(ListingsDiffer) <==>
      Listing(fs, d1, base1).Ok? && Listing(fs, d2, base2).Ok? &&
      Listing(fs, d1, base1) != Listing(fs, d2, base2)
  {
    Compare(fs, d1, d2, base1, base2, FilePairs(fs, d1, d2))
  }

  /** No data loss: `dirs_match` is truthy exactly when both listings agree
      and every file below the directory `d1` resolves to has a counterpart
      below `d2` with the same size and the same digest. */
  lemma DirsMatchExact(fs: FS, d1: string, d2: string, base1: string, base2: string)
    requires WellFormed(fs)
    ensures var top := Resolve(fs, d1);
      Truthy(DirsMatch(fs, d1, d2, base1, base2)) <==>
      && Listing(fs, d1, base1).Ok? && Listing(fs, d1, base1) == Listing(fs, d2, base2)
      && Listing(fs, top, "").Ok?
      && forall x :: x in Listing(fs, top, "").value && IsFile(fs, x) ==>
           Size(fs, Rebase(x, top, d2)) == Size(fs, x) && Md5(fs, Rebase(x, top, d2)) == Md5(fs, x)
  {
    var top := Resolve(fs, d1);
    ListingRaisesOnlyAtTop(fs, d1, base1);
    ListingRaisesOnlyAtTop(fs, top, "");
    if Listing(fs, d1, base1).Ok? {
      var files := Listing(fs, top, "").value;
      var pairs := RebasePairs(files, top, d2);
      assert FilePairs(fs, d1, d2) == pairs;
      if Truthy(DirsMatch(fs, d1, d2, base1, base2)) {
        CleanTallyMeansEqualFiles(fs, pairs);
        forall x | x in files && IsFile(fs, x)
          ensures Size(fs, Rebase(x, top, d2)) == Size(fs, x) && Md5(fs, Rebase(x, top, d2)) == Md5(fs, x)
        {
          var k :| 0 <= k < |files| && files[k] == x;
          assert pairs[k] == (x, Rebase(x, top, d2));
        }
      }
      if Listing(fs, d1, base1) == Listing(fs, d2, base2) &&
         forall x :: x in files && IsFile(fs, x) ==>
           Size(fs, Rebase(x, top, d2)) == Size(fs, x) && Md5(fs, Rebase(x, top, d2)) == Md5(fs, x)
      {
        forall k | 0 <= k < |pairs| && IsFile(fs, pairs[k].0)
          ensures Size(fs, pairs[k].1) == Size(fs, pairs[k].0) && Md5(fs, pairs[k].1) == Md5(fs, pairs[k].0)
        {
          assert files[k] in files;
        }
        EqualFilesMeanCleanTally(fs, pairs);
      }
    }
  }

  /** What `dirs_match` as written checks: the listings agree, and each
      path built from one character of `d1` that is a file below `d1` has a
      counterpart of the same size and digest below `d2`. */
  lemma DirsMatchAsWrittenExact(fs: FS, d1: string, d2: string, base1: string, base2: string)
    requires WellFormed(fs)
    ensures Truthy(DirsMatchAsWritten(fs, d1, d2, base1, base2)) <==>
      && Listing(fs, d1, base1).Ok? && Listing(fs, d1, base1) == Listing(fs, d2, base2)
      && forall k :: 0 <= k < |d1| && IsFile(fs, Join(d1, [d1[k]])) ==>
           && Size(fs, Join(d2, [d1[k]])) == Size(fs, Join(d1, [d1[k]]))
           && Md5(fs, Join(d2, [d1[k]])) == Md5(fs, Join(d1, [d1[k]]))
  {
    var pairs := CharPairs(d1, d2);
    if Truthy(DirsMatchAsWritten(fs, d1, d2, base1, base2)) {
      CleanTallyMeansEqualFiles(fs, pairs);
    }
    if Listing(fs, d1, base1).Ok? && Listing(fs, d1, base1) == Listing(fs, d2, base2) &&
       forall k :: 0 <= k < |d1| && IsFile(fs, Join(d1, [d1[k]])) ==>
         && Size(fs, Join(d2, [d1[k]])) == Size(fs, Join(d1, [d1[k]]))
         && Md5(fs, Join(d2, [d1[k]])) == Md5(fs, Join(d1, [d1[k]]))
    {
      EqualFilesMeanCleanTally(fs, pairs);
    }
  }

  /** A working directory and its archive copy whose one file differs in
      size, so that the archive copy may not stand in for it. */
  const Working: string := "/g/v1"
  const Archived: string := "/a/v1"
  const Differing: FS := map[
    "/g" := Dir(["v1"]),
    "/g/v1" := Dir(["f"]),
    "/g/v1/f" := File(10, "d1"),
    "/a" := Dir(["v1"]),
    "/a/v1" := Dir(["f"]),
    "/a/v1/f" := File(20, "d2")]

  /** A directory holding a single file lists just that file. */
  lemma SingleFileListing(fs: FS, d: string, n: string, base: string)
    requires WellFormed(fs) && d in fs && fs[d] == Dir([n])
    requires Join(d, n) in fs && fs[Join(d, n)].File?
    ensures Listing(fs, d, base) == Ok([Shown(Join(d, n), base)])
  {
    assert ValidName(n);
    assert [n][..0] == [] && [n][0] == n;
    assert Gather(fs, d, [], base) == Ok([]);
    assert Step(fs, d, n, base, []) == Ok([] + [Shown(Join(d, n), base)]);
    assert [] + [Shown(Join(d, n), base)] == [Shown(Join(d, n), base)];
  }

  /** The nodes of `Differing` that the comparison looks at. */
  predicate LooksLikeDiffering(fs: FS) {
    && "/g/v1" in fs && fs["/g/v1"] == Dir(["f"])
    && "/a/v1" in fs && fs["/a/v1"] == Dir(["f"])
    && "/g/v1/f" in fs && fs["/g/v1/f"] == File(10, "d1")
    && "/a/v1/f" in fs && fs["/a/v1/f"] == File(20, "d2")
    && "/" !in fs && "/g/v1/g" !in fs && "/g/v1/v" !in fs && "/g/v1/1" !in fs
  }

  lemma DifferingShape()
    ensures WellFormed(Differing) && LooksLikeDiffering(Differing)
  {
  }

  lemma DifferingPaths()
    ensures Join(Working, "f") == "/g/v1/f" && Join(Archived, "f") == "/a/v1/f"
    ensures Shown("/g/v1/f", "/g") == "/v1/f" && Shown("/a/v1/f", "/a") == "/v1/f"
  {
    DifferingShown("/g", 'g');
    DifferingShown("/a", 'a');
  }

  lemma DifferingShown(base: string, c: char)
    requires base == ['/', c] && c in "ga"
    ensures Join(base + "/v1", "f") == base + "/v1/f"
    ensures Shown(base + "/v1/f", base) == "/v1/f"
  {
    assert c !in "/v1/f";
    StripBase(base, "/v1/f");
    assert base + "/v1/f" == base + "/v1/f";
  }

  /** Cutting out a two-character base whose second character does not
      recur in the rest of the path. */
  lemma StripBase(base: string, rest: string)
    requires |base| == 2 && base[1] !in rest
    ensures ReplaceAll(base + rest, base, "") == rest
  {
    ReplaceAllPrefix(base, rest, "");
    forall k ensures !OccursAt(rest, base, k) {
      if 0 <= k && k + |base| <= |rest| {
        assert rest[k..k + |base|][1] == rest[k + 1];
        assert rest[k + 1] in rest;
      }
    }
    ReplaceAllAbsent(rest, base, "");
  }

  lemma DifferingListings(fs: FS)
    requires WellFormed(fs) && LooksLikeDiffering(fs)
    ensures Listing(fs, Working, "/g") == Ok(["/v1/f"])
    ensures Listing(fs, Archived, "/a") == Ok(["/v1/f"])
    ensures Listing(fs, Working, "") == Ok(["/g/v1/f"])
  {
    DifferingPaths();
    SingleFileListing(fs, Working, "f", "/g");
    SingleFileListing(fs, Archived, "f", "/a");
    SingleFileListing(fs, Working, "f", "");
  }

  /** The loop as written joins the characters of `/g/v1` onto the path,
      none of which names a file, so it checks nothing and reports a match
      although the two copies of `f` differ; the loop over the listed files
      reports the mismatch. */
  lemma AsWrittenAcceptsDifferingFiles()
    ensures WellFormed(Differing)
    ensures Listing(Differing, Working, "/g") == Listing(Differing, Archived, "/a")
    ensures Size(Differing, Working + "/f") != Size(Differing, Archived + "/f")
    ensures Truthy(DirsMatchAsWritten(Differing, Working, Archived, "/g", "/a"))
    ensures !Truthy(DirsMatch(Differing, Working, Archived, "/g", "/a"))
  {
    DifferingShape();
    AcceptsDiffering(Differing);
  }

  lemma AcceptsDiffering(fs: FS)
    requires WellFormed(fs) && LooksLikeDiffering(fs)
    ensures Listing(fs, Working, "/g") == Listing(fs, Archived, "/a")
    ensures Size(fs, Working + "/f") != Size(fs, Archived + "/f")
    ensures Truthy(DirsMatchAsWritten(fs, Working, Archived, "/g", "/a"))
    ensures !Truthy(DirsMatch(fs, Working, Archived, "/g", "/a"))
  {
    DifferingListings(fs);
    assert Working + "/f" == "/g/v1/f" && Archived + "/f" == "/a/v1/f";
    CharsNameNoFile(fs);
    CleanCharTally(fs, CharPairs(Working, Archived));
    DifferingFilePairs(fs);
  }

  /** None of the paths the loop as written builds from `/g/v1` is a file. */
  lemma CharsNameNoFile(fs: FS)
    requires LooksLikeDiffering(fs)
    ensures forall k :: 0 <= k < |Working| ==> !IsFile(fs, CharPairs(Working, Archived)[k].0)
  {
    var chars := CharPairs(Working, Archived);
    forall k | 0 <= k < |chars| ensures !IsFile(fs, chars[k].0) {
      var c := Working[k];
      assert chars[k].0 == Join(Working, [c]);
      if c == '/' {
        assert Join(Working, [c]) == "/";
      } else if c == 'g' {
        assert Join(Working, [c]) == "/g/v1/g";
      } else if c == 'v' {
        assert Join(Working, [c]) == "/g/v1/v";
      } else {
        assert c == '1';
        assert Join(Working, [c]) == "/g/v1/1";
      }
    }
  }

  /** The loop over the listed files visits `f` and counts its mismatch. */
  lemma DifferingFilePairs(fs: FS)
    requires WellFormed(fs) && LooksLikeDiffering(fs)
    requires Listing(fs, Working, "") == Ok(["/g/v1/f"])
    ensures TallyOf(fs, FilePairs(fs, Working, Archived)) == Ok(Tally(1, []))
  {
    assert Resolve(fs, Working) == Working;
    assert Rebase("/g/v1/f", Working, Archived) == "/a/v1/f";
    assert FilePairs(fs, Working, Archived) == [("/g/v1/f", "/a/v1/f")];
  }

  /** A working version that is a link to some other directory `/x`
      whose one file differs in size from the archive copy. */
  predicate LooksLikeLinkedCopy(fs: FS) {
    && Working in fs && fs[Working] == Symlink("/x")
    && "/x" in fs && fs["/x"] == Dir(["f"])
    && "/x/f" in fs && fs["/x/f"] == File(10, "d1")
    && Archived in fs && fs[Archived] == Dir(["f"])
    && "/a/v1/f" in fs && fs["/a/v1/f"] == File(20, "d2")
  }

  /** The corrected comparison reads the files of a linked working version
      through the link, so it sees the differing size and does not match. */
  lemma LinkedCopyCompared(fs: FS)
    requires WellFormed(fs) && LooksLikeLinkedCopy(fs)
    ensures Resolve(fs, Working) == "/x"
    ensures !Truthy(DirsMatch(fs, Working, Archived, "/g", "/a"))
  {
    assert Resolve(fs, Working) == "/x";
    assert Resolve(fs, "/x") == "/x";
    assert ListDir(fs, "/x") == Ok(["f"]);
    assert "f" in ListDir(fs, "/x").value;
    assert Join("/x", "f") == "/x/f";
    ListingComplete(fs, "/x", "", "f");
    assert "/x/f" in Listing(fs, "/x", "").value;
    assert Rebase("/x/f", "/x", Archived) == "/a/v1/f";
    assert Resolve(fs, "/x/f") == "/x/f" && Resolve(fs, "/a/v1/f") == "/a/v1/f";
    assert IsFile(fs, "/x/f") && Size(fs, "/x/f") == Ok(10) && Size(fs, "/a/v1/f") == Ok(20);
    DirsMatchExact(fs, Working, Archived, "/g", "/a");
  }

  /** A loop none of whose left-hand paths is a file leaves a clean tally. */
  lemma {:induction false} CleanCharTally(fs: FS, pairs: seq<(string, string)>)
    requires forall k :: 0 <= k < |pairs| ==> !IsFile(fs, pairs[k].0)
    ensures TallyOf(fs, pairs) == Ok(Tally(0, []))
    decreases |pairs|
  {
    if pairs != [] {
      CleanCharTally(fs, pairs[..|pairs| - 1]);
    }
  }
}
