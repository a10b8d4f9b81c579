/** An abstract POSIX filesystem: a map from path strings to nodes, and the
    primitive `os` calls the engine makes, each as a function of the map. */
module FileSystem {
  import opened Outcomes
  import opened Paths

  /** A file is observed only through its size and its MD5 digest, so the
      node records those two (the digest stands for an uninterpreted function
      of the file's content). A directory keeps its entries in the order
      `os.listdir` reports them. */
  datatype Node =
    | File(size: nat, digest: string)
    | Dir(entries: seq<string>)
    | Symlink(target: string)

  type FS = map<string, Node>

  /** The filesystem after a call, and the exception it raised if any. */
  datatype Effect = Done(fs: FS) | Failed(fs: FS, error: OsError)

  /** The effect of a method that changed the filesystem to `fs` and
      raised `raised`, if anything. */
  function Effected(fs: FS, raised: Option<OsError>): (r: Effect)
    ensures r.fs == fs && (r.Failed? <==> raised.Some?)
    ensures r.Failed? ==> r.error == raised.value
  {
    if raised.None? then Done(fs) else Failed(fs, raised.value)
  }

  /** What `os.path.getsize` reports for a directory (an ext4 block). */
  const DirectorySize: nat := 4096

  /** Every directory entry is a name `os.listdir` could return, and no
      link has an empty target (POSIX refuses to create one). */
  predicate WellFormed(fs: FS) {
    && (forall d :: d in fs && fs[d].Dir? ==> forall e :: e in fs[d].entries ==> ValidName(e))
    && (forall p :: p in fs && fs[p].Symlink? ==> fs[p].target != "")
  }

  /** The paths strictly below `d`; it shrinks on every descent, which is
      what makes the recursive listings terminate. */
  function Below(fs: FS, d: string): set<string> {
    set q | q in fs.Keys && StrictPrefix(d, q)
  }

  lemma BelowShrinks(fs: FS, d: string, e: string)
    requires ValidName(e) && Join(d, e) in fs
    ensures Below(fs, Join(d, e)) < Below(fs, d)
  {
    var c := Join(d, e);
    JoinExtends(d, e);
    forall q | q in Below(fs, c) ensures q in Below(fs, d) {
      StrictPrefixTransitive(d, c, q);
    }
    assert c in Below(fs, d) && c !in Below(fs, c);
  }

  /** `os.path.islink` / `Path.is_symlink`. */
  predicate IsLink(fs: FS, p: string) {
    p in fs && fs[p].Symlink?
  }

  /** A symbolic link at `p` itself is followed once. A relative target is
      read from the link's own directory, an absolute one as it stands. */
  function Resolve(fs: FS, p: string): (q: string)
    ensures IsLink(fs, p) && |fs[p].target| > 0 && fs[p].target[0] == '/' ==> q == fs[p].target
    ensures !IsLink(fs, p) ==> q == p
  {
    if p in fs && fs[p].Symlink? then Join(Parent(p), fs[p].target) else p
  }

  /** `os.path.isdir`. */
  predicate IsDir(fs: FS, p: string) {
    Resolve(fs, p) in fs && fs[Resolve(fs, p)].Dir?
  }

  /** `os.path.isfile`. */
  predicate IsFile(fs: FS, p: string) {
    Resolve(fs, p) in fs && fs[Resolve(fs, p)].File?
  }

  /** `os.path.exists` (false for a dangling link). */
  predicate Exists(fs: FS, p: string) {
    Resolve(fs, p) in fs
  }

  /** `os.listdir`. */
  function ListDir(fs: FS, p: string): (r: Outcome<seq<string>>)
    ensures r.Ok? <==> IsDir(fs, p)
  {
    var q := Resolve(fs, p);
    if q !in fs then Raised(FileNotFound)
    else if fs[q].Dir? then Ok(fs[q].entries)
    else Raised(NotADirectory)
  }

  /** `os.readlink` / `Path.readlink`. */
  function ReadLink(fs: FS, p: string): (r: Outcome<string>)
    ensures r.Ok? <==> IsLink(fs, p)
    ensures r.Ok? ==> fs[p] == Symlink(r.value)
  {
    if p !in fs then Raised(FileNotFound)
    else if fs[p].Symlink? then Ok(fs[p].target)
    else Raised(InvalidArgument)
  }

  /** `os.path.getsize`. */
  function Size(fs: FS, p: string): (r: Outcome<nat>)
    ensures IsFile(fs, p) ==> r == Ok(fs[Resolve(fs, p)].size)
  {
    var q := Resolve(fs, p);
    if q !in fs then Raised(FileNotFound)
    else match fs[q]
      case File(n, _) => Ok(n)
      case Dir(_) => Ok(DirectorySize)
      case Symlink(_) => Raised(FileNotFound)
  }

  /** The module's `md5(f)`: the digest of the file's content. */
  function Md5(fs: FS, p: string): (r: Outcome<string>)
    ensures r.Ok? <==> IsFile(fs, p)
    ensures r.Ok? ==> r.value == fs[Resolve(fs, p)].digest
  {
    var q := Resolve(fs, p);
    if q !in fs then Raised(FileNotFound)
    else match fs[q]
      case File(_, h) => Ok(h)
      case Dir(_) => Raised(IsADirectory)
      case Symlink(_) => Raised(FileNotFound)
  }

  /** `s` without any occurrence of `x`. */
  function Without(s: seq<string>, x: string): (r: seq<string>)
    ensures forall y :: y in r <==> y in s && y != x
  {
    if s == [] then [] else (if s[0] == x then [] else [s[0]]) + Without(s[1..], x)
  }

  /** Takes `name` out of the entry list of directory `d`, if `d` is one. */
  function DropEntry(fs: FS, d: string, name: string): (r: FS)
    ensures r.Keys == fs.Keys
    ensures forall p :: p in fs && p != d ==> r[p] == fs[p]
    ensures d in fs ==> (r[d].Dir? <==> fs[d].Dir?)
  {
    if d in fs && fs[d].Dir? then fs[d := Dir(Without(fs[d].entries, name))] else fs
  }

  /** `os.remove` of entry `name` of the (already resolved) directory `d`. */
  function RemoveEntry(fs: FS, d: string, name: string): (r: Effect)
    ensures r.Done? <==> Join(d, name) in fs && !fs[Join(d, name)].Dir?
    ensures r.Failed? ==> r.fs == fs
    ensures r.Done? ==> r.fs.Keys == fs.Keys - {Join(d, name)}
    ensures r.Done? ==> forall q :: q in r.fs && q != d ==> r.fs[q] == fs[q]
  {
    var p := Join(d, name);
    if p !in fs then Failed(fs, FileNotFound)
    else if fs[p].Dir? then Failed(fs, IsADirectory)
    else Done(DropEntry(fs - {p}, d, name))
  }

  /** `os.rmdir`: only an empty directory, never a link to one. */
  function RemoveDir(fs: FS, p: string): (r: Effect)
    ensures r.Done? <==> p in fs && fs[p] == Dir([])
    ensures r.Failed? ==> r.fs == fs
    ensures r.Done? ==> r.fs.Keys == fs.Keys - {p}
    ensures r.Done? ==> forall q :: q in r.fs && q != Parent(p) ==> r.fs[q] == fs[q]
  {
    if p !in fs then Failed(fs, FileNotFound)
    else if !fs[p].Dir? then Failed(fs, NotADirectory)
    else if fs[p].entries != [] then Failed(fs, DirectoryNotEmpty)
    else Done(DropEntry(fs - {p}, Parent(p), Base(p)))
  }

  /** `os.symlink(target, link)`: an empty target is refused; otherwise it
      fails when anything, even a dangling link, is already at `link`, and
      else adds the link to its directory. */
  function MakeSymlink(fs: FS, target: string, link: string): (r: Effect)
    ensures target == "" ==> r == Failed(fs, FileNotFound)
    ensures target != "" && link in fs ==> r == Failed(fs, FileExists)
    ensures r.Failed? ==> r.fs == fs
    ensures r.Done? ==> target != "" && link !in fs && r.fs.Keys == fs.Keys + {link}
    ensures r.Done? ==> r.fs[link] == Symlink(target)
    ensures r.Done? ==> forall p :: p in fs && p != Parent(link) ==> r.fs[p] == fs[p]
  {
    var d := Parent(link);
    if target == "" then Failed(fs, FileNotFound)
    else if link in fs then Failed(fs, FileExists)
    else if !ValidName(Base(link)) || d !in fs then Failed(fs, FileNotFound)
    else if !fs[d].Dir? then Failed(fs, NotADirectory)
    else
      ParentIsOther(link);
      Done(fs[link := Symlink(target)][d := Dir(fs[d].entries + [Base(link)])])
  }

  lemma ParentIsOther(p: string)
    requires ValidName(Base(p))
    ensures Parent(p) != p
  {
  }

  lemma DropEntryWellFormed(fs: FS, d: string, name: string)
    requires WellFormed(fs)
    ensures WellFormed(DropEntry(fs, d, name))
  {
  }

  /** None of the primitive mutations breaks well-formedness. */
  lemma MutationsKeepWellFormed(fs: FS, d: string, name: string, p: string, target: string)
    requires WellFormed(fs)
    ensures WellFormed(RemoveEntry(fs, d, name).fs)
    ensures WellFormed(RemoveDir(fs, p).fs)
    ensures WellFormed(MakeSymlink(fs, target, p).fs)
  {
    RemoveEntryWellFormed(fs, d, name);
    RemoveDirWellFormed(fs, p);
    SymlinkWellFormed(fs, target, p);
  }

  lemma RemoveEntryWellFormed(fs: FS, d: string, name: string)
    requires WellFormed(fs)
    ensures WellFormed(RemoveEntry(fs, d, name).fs)
  {
    DropEntryWellFormed(fs - {Join(d, name)}, d, name);
  }

  lemma RemoveDirWellFormed(fs: FS, p: string)
    requires WellFormed(fs)
    ensures WellFormed(RemoveDir(fs, p).fs)
  {
    DropEntryWellFormed(fs - {p}, Parent(p), Base(p));
  }

  lemma SymlinkWellFormed(fs: FS, target: string, link: string)
    requires WellFormed(fs)
    ensures WellFormed(MakeSymlink(fs, target, link).fs)
  {
    var r := MakeSymlink(fs, target, link);
    if r.Done? {
      var d := Parent(link);
      assert ValidName(Base(link)) && d in fs && fs[d].Dir?;
      assert r.fs == fs[link := Symlink(target)][d := Dir(fs[d].entries + [Base(link)])];
    }
  }
}
