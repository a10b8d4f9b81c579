/** `os.path.join` and `os.path.split` on POSIX path strings. */
module Paths {

  /** A directory entry name as `os.listdir` returns it. */
  predicate ValidName(e: string) {
    |e| > 0 && '/' !in e
  }

  predicate AllValid(names: seq<string>) {
    forall n :: n in names ==> ValidName(n)
  }

  /** `os.path.join(d, e)` for two components: an absolute `e` discards
      `d`; otherwise a `/` is inserted unless `d` is empty or already ends
      in one. */
  function Join(d: string, e: string): string {
    if |e| > 0 && e[0] == '/' then e
    else if d == "" || d[|d| - 1] == '/' then d + e
    else d + "/" + e
  }

  predicate StrictPrefix(p: string, q: string) {
    |p| < |q| && q[..|p|] == p
  }

  lemma StrictPrefixTransitive(p: string, q: string, r: string)
    requires StrictPrefix(p, q) && StrictPrefix(q, r)
    ensures StrictPrefix(p, r)
  {
    assert r[..|p|] == r[..|q|][..|p|];
  }

  /** Joining a directory entry name strictly extends the directory path. */
  lemma JoinExtends(d: string, e: string)
    requires ValidName(e)
    ensures StrictPrefix(d, Join(d, e))
  {
    assert e[0] != '/' by { assert e[0] in e; }
  }

  /** Index of the last `/` in `p`, or -1. */
  function LastSlash(p: string): (k: int)
    ensures -1 <= k < |p|
    ensures k >= 0 ==> p[k] == '/'
    ensures forall j :: k < j < |p| ==> p[j] != '/'
  {
    if p == [] then -1
    else if p[|p| - 1] == '/' then |p| - 1
    else LastSlash(p[..|p| - 1])
  }

  /** The head of `os.path.split(p)` (paths without repeated slashes). */
  function Parent(p: string): string {
    var k := LastSlash(p);
    if k < 0 then "" else if k == 0 then "/" else p[..k]
  }

  /** The tail of `os.path.split(p)`. */
  function Base(p: string): string {
    p[LastSlash(p) + 1..]
  }

  /** A normalised directory path: empty (the working directory), the root,
      or a path not ending in `/`. */
  predicate Normal(d: string) {
    d == "" || d == "/" || d[|d| - 1] != '/'
  }

  /** Splitting a joined path gives back the directory and the name. */
  lemma SplitJoin(d: string, e: string)
    requires Normal(d) && ValidName(e)
    ensures Parent(Join(d, e)) == d && Base(Join(d, e)) == e
    ensures Normal(Join(d, e))
  {
    assert e[0] != '/' by { assert e[0] in e; }
    var p := Join(d, e);
    var s := if d == "" || d == "/" then |d| - 1 else |d|;
    assert p == if d == "" then e else if d == "/" then d + e else d + "/" + e;
    forall j | s < j < |p| ensures p[j] != '/' {
      assert p[j] == e[j - s - 1];
      assert e[j - s - 1] in e;
    }
    assert s >= 0 ==> p[s] == '/';
    LastSlashIs(p, s);
    assert p[s + 1..] == e;
  }

  lemma LastSlashIs(p: string, s: int)
    requires -1 <= s < |p|
    requires s >= 0 ==> p[s] == '/'
    requires forall j :: s < j < |p| ==> p[j] != '/'
    ensures LastSlash(p) == s
  {
  }

  /** The tail of a joined entry name is that name, whatever the directory. */
  lemma BaseJoin(d: string, e: string)
    requires ValidName(e)
    ensures Base(Join(d, e)) == e
  {
    assert e[0] != '/' by { assert e[0] in e; }
    var p := Join(d, e);
    var s := |p| - |e| - 1;
    assert p[s + 1..] == e;
    NoSlashIn(p, s, e);
    LastSlashIs(p, s);
  }

  lemma NoSlashIn(p: string, s: int, e: string)
    requires ValidName(e) && -1 <= s && s + 1 + |e| == |p| && p[s + 1..] == e
    ensures forall j :: s < j < |p| ==> p[j] != '/'
  {
    forall j | s < j < |p| ensures p[j] != '/' {
      assert p[j] == e[j - s - 1];
      assert e[j - s - 1] in e;
    }
  }

  /** Distinct entry names of one directory give distinct paths. */
  lemma JoinInjective(d: string, a: string, b: string)
    requires ValidName(a) && ValidName(b) && Join(d, a) == Join(d, b)
    ensures a == b
  {
    assert a[0] != '/' by { assert a[0] in a; }
    assert b[0] != '/' by { assert b[0] in b; }
    var p := Join(d, a);
    if d == "" || d[|d| - 1] == '/' {
      assert a == p[|d|..] == b;
    } else {
      assert a == p[|d| + 1..] == b;
    }
  }
}
