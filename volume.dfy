/**
 The file system the converter works on: a finite table from absolute path
 strings to nodes. A directory node keeps the names `os.listdir` returns for
 it, in listing order. The two mutations the converter performs, the rename
 done by `shutil.move` and `os.symlink`, are functions on the table.
 */
module Volume {
  import opened PyStr
  import opened PosixPath

  datatype Node = Directory(children: seq<string>) | File | Symlink(target: string)

  type Table = map<string, Node>

  /** `os.path.isdir`, without following symbolic links: a missing path, a
      file and a link are never directories. */
  predicate IsDir(fs: Table, p: string): (d: bool)
    ensures p !in fs ==> !d
    ensures p in fs && (fs[p].File? || fs[p].Symlink?) ==> !d
    ensures d ==> p in fs && fs[p] == Directory(fs[p].children)
  {
    p in fs && fs[p].Directory?
  }

  /** No name is listed twice. */
  predicate Distinct(names: seq<string>)
  {
    forall i, j :: 0 <= i < j < |names| ==> names[i] != names[j]
  }

  /** A listing `os.listdir` could return: valid names, each at most once. */
  ghost predicate Listing(names: seq<string>)
  {
    (forall n :: n in names ==> ValidName(n)) && Distinct(names)
  }

  /** Every directory holds such a listing. */
  ghost predicate WellFormed(fs: Table)
  {
    forall p :: IsDir(fs, p) ==> Listing(fs[p].children)
  }

  /** The paths that hold directories. */
  ghost function DirPaths(fs: Table): set<string>
  {
    set p | p in fs && fs[p].Directory?
  }

  /** The directories whose paths are longer than `dir`: what a walk from
      `dir` can still descend into. */
  ghost function DirsBeyond(fs: Table, dir: string): set<string>
  {
    set p | p in DirPaths(fs) && |p| > |dir|
  }

  /** Path `p` holds the same thing (or nothing) in both tables. */
  ghost predicate Same(fs: Table, fs': Table, p: string)
  {
    (p in fs <==> p in fs') && (p in fs ==> fs[p] == fs'[p])
  }

  /** Going from `fs` to `fs'` changed nothing outside `dir` and what lies
      below it. */
  ghost predicate ConfinedTo(fs: Table, fs': Table, dir: string)
  {
    forall p :: p != dir && !Below(p, dir) ==> Same(fs, fs', p)
  }

  /** A listing with `name` added at the end unless it is already there. */
  function Insert(names: seq<string>, name: string): (r: seq<string>)
    ensures forall n :: n in r <==> n in names || n == name
    ensures Distinct(names) ==> Distinct(r)
  {
    if name in names then names else names + [name]
  }

  /** A listing with every occurrence of `name` dropped. */
  function Remove(names: seq<string>, name: string): (r: seq<string>)
    ensures forall n :: n in r <==> n in names && n != name
    ensures Distinct(names) ==> Distinct(r)
  {
    if names == [] then []
    else if names[0] == name then Remove(names[1..], name)
    else
      var rest := Remove(names[1..], name);
      assert Distinct(names) ==> names[0] !in names[1..];
      [names[0]] + rest
  }

  /** Replace the listing of `dir`, when `dir` is a directory. */
  function Relist(fs: Table, dir: string, names: seq<string>): Table
  {
    if IsDir(fs, dir) then fs[dir := Directory(names)] else fs
  }

  /** `shutil.move(join(dir, src), join(dir, dst))` within one directory:
      the node changes key, an existing node at the destination is replaced,
      and the directory's listing trades `src` for `dst`. `MoveFrame` states
      what else it keeps. */
  function Move(fs: Table, dir: string, src: string, dst: string): (r: Table)
    requires ValidName(src) && ValidName(dst) && src != dst
    requires Join(dir, src) in fs
    ensures Join(dir, src) !in r
    ensures Join(dir, dst) in r && r[Join(dir, dst)] == fs[Join(dir, src)]
    ensures IsDir(fs, dir) ==> IsDir(r, dir)
  {
    JoinInjective(dir, src, dst);
    JoinBelow(dir, src);
    JoinBelow(dir, dst);
    var moved := (fs - {Join(dir, src)})[Join(dir, dst) := fs[Join(dir, src)]];
    Relist(moved, dir, if IsDir(moved, dir) then Insert(Remove(moved[dir].children, src), dst) else [])
  }

  /** The move touches only `dir` and the two joined paths, keeps listings
      valid, creates no directory path unless it moves a directory, and
      stays inside `dir`. */
  lemma MoveFrame(fs: Table, dir: string, src: string, dst: string)
    requires ValidName(src) && ValidName(dst) && src != dst
    requires Join(dir, src) in fs
    ensures var r := Move(fs, dir, src, dst);
            && (forall p :: p != dir && p != Join(dir, src) && p != Join(dir, dst) ==> Same(fs, r, p))
            && (IsDir(fs, dir) ==>
                  forall n :: n in r[dir].children <==> (n in fs[dir].children && n != src) || n == dst)
            && (WellFormed(fs) ==> WellFormed(r))
            && (!fs[Join(dir, src)].Directory? ==> DirPaths(r) <= DirPaths(fs))
            && ConfinedTo(fs, r, dir)
  {
    JoinInjective(dir, src, dst);
    JoinBelow(dir, src);
    JoinBelow(dir, dst);
    var moved := (fs - {Join(dir, src)})[Join(dir, dst) := fs[Join(dir, src)]];
    var names := if IsDir(moved, dir) then Insert(Remove(moved[dir].children, src), dst) else [];
    var r := Relist(moved, dir, names);
    assert r == Move(fs, dir, src, dst);
    RelistFacts(moved, dir, names);
    assert IsDir(fs, dir) ==> IsDir(moved, dir) && moved[dir] == fs[dir];
    assert WellFormed(fs) ==> WellFormed(moved) by {
      if WellFormed(fs) {
        forall p | IsDir(moved, p) ensures Listing(moved[p].children) {
          if p != Join(dir, dst) { assert IsDir(fs, p); } else { assert IsDir(fs, Join(dir, src)); }
        }
      }
    }
    assert !fs[Join(dir, src)].Directory? ==> DirPaths(moved) <= DirPaths(fs);
    forall p | p != dir && p != Join(dir, src) && p != Join(dir, dst) ensures Same(fs, r, p) {
      assert Same(fs, moved, p) && Same(moved, r, p);
    }
    assert ConfinedTo(fs, r, dir) by {
      forall p | p != dir && !Below(p, dir) ensures Same(fs, r, p) {
        assert p != Join(dir, src) && p != Join(dir, dst);
      }
    }
  }

  /** Relisting keeps well-formedness when the new names are valid, keeps
      the directory paths, and touches only `dir`. */
  lemma RelistFacts(fs: Table, dir: string, names: seq<string>)
    ensures forall p :: p != dir ==> Same(fs, Relist(fs, dir, names), p)
    ensures IsDir(fs, dir) ==> Relist(fs, dir, names)[dir] == Directory(names)
    ensures DirPaths(Relist(fs, dir, names)) == DirPaths(fs)
    ensures WellFormed(fs) && Listing(names) ==> WellFormed(Relist(fs, dir, names))
  {
    var r := Relist(fs, dir, names);
    assert DirPaths(r) == DirPaths(fs) by {
      forall p ensures p in DirPaths(r) <==> p in DirPaths(fs) {
        assert p in r <==> p in fs;
      }
    }
  }

  /** `os.symlink(target, join(dir, name))` on a free path: a link node at
      the path and the name in the directory's listing. `LinkFrame` states
      what else it keeps. */
  function Link(fs: Table, dir: string, name: string, target: string): (r: Table)
    requires ValidName(name) && Join(dir, name) !in fs
    ensures Join(dir, name) in r && r[Join(dir, name)] == Symlink(target)
    ensures IsDir(fs, dir) ==> IsDir(r, dir)
  {
    JoinBelow(dir, name);
    var linked := fs[Join(dir, name) := Symlink(target)];
    Relist(linked, dir, if IsDir(linked, dir) then Insert(linked[dir].children, name) else [])
  }

  /** The link touches only `dir` and the joined path, keeps listings
      valid, creates no directory path, and stays inside `dir`. */
  lemma LinkFrame(fs: Table, dir: string, name: string, target: string)
    requires ValidName(name) && Join(dir, name) !in fs
    ensures var r := Link(fs, dir, name, target);
            && (forall p :: p != dir && p != Join(dir, name) ==> Same(fs, r, p))
            && (IsDir(fs, dir) ==> forall n :: n in r[dir].children <==> n in fs[dir].children || n == name)
            && (WellFormed(fs) ==> WellFormed(r))
            && DirPaths(r) <= DirPaths(fs)
            && ConfinedTo(fs, r, dir)
  {
    JoinBelow(dir, name);
    var linked := fs[Join(dir, name) := Symlink(target)];
    var names := if IsDir(linked, dir) then Insert(linked[dir].children, name) else [];
    var r := Relist(linked, dir, names);
    assert r == Link(fs, dir, name, target);
    RelistFacts(linked, dir, names);
    assert IsDir(fs, dir) ==> IsDir(linked, dir) && linked[dir] == fs[dir];
    assert WellFormed(fs) ==> WellFormed(linked) by {
      if WellFormed(fs) {
        forall p | IsDir(linked, p) ensures Listing(linked[p].children) {
          assert IsDir(fs, p);
        }
      }
    }
    assert DirPaths(linked) <= DirPaths(fs);
    forall p | p != dir && p != Join(dir, name) ensures Same(fs, r, p) {
      assert Same(fs, linked, p) && Same(linked, r, p);
    }
    assert ConfinedTo(fs, r, dir) by {
      forall p | p != dir && !Below(p, dir) ensures Same(fs, r, p) {
        assert p != Join(dir, name);
      }
    }
  }

  /** Confinement to one directory composes. */
  lemma ConfinedTrans(fs: Table, fs': Table, fs'': Table, dir: string)
    requires ConfinedTo(fs, fs', dir) && ConfinedTo(fs', fs'', dir)
    ensures ConfinedTo(fs, fs'', dir)
  {
    forall p | p != dir && !Below(p, dir) ensures Same(fs, fs'', p) {
      assert Same(fs, fs', p) && Same(fs', fs'', p);
    }
  }

  /** Descending into a directory of `fs` longer than `dir` leaves strictly
      fewer directories to descend into. */
  lemma DirsBeyondShrink(fs: Table, dir: string, sub: string)
    requires IsDir(fs, sub) && |sub| > |dir|
    ensures DirsBeyond(fs, sub) < DirsBeyond(fs, dir)
  {
    assert sub in DirsBeyond(fs, dir) && sub !in DirsBeyond(fs, sub);
  }
}
