/**
 The two `os.path` operations on POSIX path strings that the converter uses,
 `dirname` and two-argument `join`, as pure string functions, with the
 prefix facts about them that the cycle guards and the walk rely on.
 */
module PosixPath {
  import opened PyStr

  /** A name `os.listdir` can return: non-empty and free of '/'. */
  predicate ValidName(name: string)
  {
    name != [] && '/' !in name
  }

  /** The path starts at the file-system root. */
  predicate IsAbsolute(p: string)
  {
    StartsWith(p, "/")
  }

  /** Index just past the last '/' of `p`, 0 when `p` has none. */
  function SlashEnd(p: string): (n: nat)
    ensures n <= |p|
    ensures n > 0 ==> p[n - 1] == '/'
    ensures forall k :: n <= k < |p| ==> p[k] != '/'
  {
    if p == [] then 0
    else if p[|p| - 1] == '/' then |p|
    else SlashEnd(p[..|p| - 1])
  }

  predicate AllSlashes(s: string)
  {
    forall k :: 0 <= k < |s| ==> s[k] == '/'
  }

  /** `s.rstrip('/')`. */
  function RStripSlashes(s: string): (r: string)
    ensures r <= s
    ensures forall k :: |r| <= k < |s| ==> s[k] == '/'
    ensures r != [] ==> r[|r| - 1] != '/'
  {
    if s != [] && s[|s| - 1] == '/' then RStripSlashes(s[..|s| - 1]) else s
  }

  /** `os.path.dirname(p)`: everything before the last '/', with trailing
      slashes dropped unless that leaves nothing but slashes. */
  function Dirname(p: string): (r: string)
    ensures r <= p
    ensures r == [] <==> '/' !in p
  {
    var head := p[..SlashEnd(p)];
    if head != [] && !AllSlashes(head) then RStripSlashes(head) else head
  }

  /** `dir` with a separator appended unless it is empty or already ends in one. */
  function DirPrefix(dir: string): (r: string)
  {
    if dir == [] || dir[|dir| - 1] == '/' then dir else dir + "/"
  }

  /** `os.path.join(dir, name)`: an absolute `name` replaces `dir`. */
  function Join(dir: string, name: string): (r: string)
    ensures |name| <= |r| && r[|r| - |name|..] == name
    ensures !StartsWith(name, "/") ==> StartsWith(r, DirPrefix(dir))
  {
    if StartsWith(name, "/") then name else DirPrefix(dir) + name
  }

  /** `p` lies strictly inside the directory `dir` (string-wise). */
  predicate Below(p: string, dir: string)
  {
    StartsWith(p, DirPrefix(dir))
  }

  /** Joining a listed name gives a longer path inside `dir`, and everything
      inside the joined path is inside `dir` too. */
  lemma JoinBelow(dir: string, name: string)
    requires ValidName(name)
    ensures Join(dir, name) == DirPrefix(dir) + name
    ensures Below(Join(dir, name), dir) && |Join(dir, name)| > |dir|
    ensures DirPrefix(Join(dir, name)) == Join(dir, name) + "/"
    ensures forall p :: Below(p, Join(dir, name)) ==> Below(p, dir)
  {
    assert name[0] != '/';
    var j := Join(dir, name);
    assert j[|j| - 1] == name[|name| - 1];
    assert name[|name| - 1] in name;
    forall p | Below(p, j) ensures Below(p, dir) {
      assert DirPrefix(dir) <= j <= p;
    }
  }

  /** Two different listed names join to two different paths. */
  lemma JoinInjective(dir: string, a: string, b: string)
    requires ValidName(a) && ValidName(b) && a != b
    ensures Join(dir, a) != Join(dir, b)
  {
    JoinBelow(dir, a);
    JoinBelow(dir, b);
    var d := DirPrefix(dir);
    assert (d + a)[|d|..] == a && (d + b)[|d|..] == b;
  }

  /** The parent of a joined path is a prefix of the directory it was
      joined to. */
  lemma DirnameOfJoin(dir: string, name: string)
    requires ValidName(name)
    ensures Dirname(Join(dir, name)) <= dir
  {
    JoinBelow(dir, name);
    var j := Join(dir, name);
    var d := DirPrefix(dir);
    assert forall k :: |d| <= k < |j| ==> j[k] == name[k - |d|];
    if dir == [] {
      assert j == name;
      assert '/' !in j;
    } else {
      assert d[|d| - 1] == '/';
      assert SlashEnd(j) == |d|;
      assert j[..|d|] == d;
      if dir[|dir| - 1] == '/' {
        assert d == dir;
      } else {
        assert d == dir + "/";
        assert !AllSlashes(d) by { assert d[|dir| - 1] != '/'; }
        assert RStripSlashes(d) == RStripSlashes(dir) by { assert d[..|d| - 1] == dir; }
        assert RStripSlashes(dir) == dir;
      }
    }
  }
  /** What follows a listed name `a` (nothing, or a separator and more) never
      spells a different listed name `b`, alone or followed by a separator. */
  lemma NamesApart(a: string, b: string, q: string)
    requires ValidName(a) && ValidName(b) && a != b
    requires q == a || a + "/" <= q
    ensures q != b && !(b + "/" <= q)
  {
    if |a| < |b| {
      // `b` goes on where `q` ends or holds a separator
      assert b[|a|] in b;
      assert q == a || q[|a|] == '/';
    } else if |b| < |a| {
      // `q` holds a name character where a separator would follow `b`
      assert a[|b|] in a;
      assert q[|b|] == a[|b|];
    } else {
      assert q[..|a|] == a;
    }
  }

  /** The converse of `DirnameOfJoin` where it holds: `dirname` gives back
      the folder a name was joined to, unless the folder string ends in a
      '/' that `dirname` strips (`/a/` gives `/a/x`, whose parent is `/a`). */
  lemma DirnameOfJoinExact(dir: string, name: string)
    requires ValidName(name)
    requires dir == [] || AllSlashes(dir) || dir[|dir| - 1] != '/'
    ensures Dirname(Join(dir, name)) == dir
  {
    JoinBelow(dir, name);
    var j := Join(dir, name);
    var d := DirPrefix(dir);
    assert forall k :: |d| <= k < |j| ==> j[k] == name[k - |d|];
    if dir == [] {
      assert j == name;
      assert '/' !in j;
    } else {
      assert d[|d| - 1] == '/';
      assert SlashEnd(j) == |d|;
      assert j[..|d|] == d;
      if dir[|dir| - 1] == '/' {
        assert d == dir;
      } else {
        assert d == dir + "/";
        assert !AllSlashes(d) by { assert d[|dir| - 1] != '/'; }
        assert RStripSlashes(d) == RStripSlashes(dir) by { assert d[..|d| - 1] == dir; }
      }
    }
  }

  /** A path at or below one listed name of `dir` is neither the path of a
      different listed name nor below it. */
  lemma SiblingsApart(dir: string, a: string, b: string, p: string)
    requires ValidName(a) && ValidName(b) && a != b
    requires p == Join(dir, a) || Below(p, Join(dir, a))
    ensures p != Join(dir, b) && !Below(p, Join(dir, b))
  {
    JoinBelow(dir, a);
    JoinBelow(dir, b);
    var d := DirPrefix(dir);
    var q := p[|d|..];
    assert p == d + q;
    assert q == a || a + "/" <= q;
    NamesApart(a, b, q);
  }
}
