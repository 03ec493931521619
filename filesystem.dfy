/**
 * An abstract filesystem: a set of directories, a map of regular files to
 * their contents and a map of symbolic links to the target text they store.
 * The functions give the effect of the three FileUtils calls the packaging
 * code relies on (mkdir_p, cp, ln_s); the class Disk holds the state that
 * those calls change in place. Symbolic links are never followed: a path
 * that would go through one makes the call fail with SymlinkInPath.
 */
module FileSystem {

  import opened Wrappers
  import opened Paths

  type Content = seq<bv8>

  datatype FsError =
    | NotADirectory(path: Path)   // a regular file stands where a directory is needed
    | SymlinkInPath(path: Path)   // the call would have to follow a symbolic link
    | AlreadyExists(path: Path)   // ln_s without force onto an existing entry
    | IsADirectory(path: Path)    // the source or destination is a directory
    | NoSuchFile(path: Path)      // a source or a parent directory is missing
    | SameFile(path: Path)        // cp of a file onto itself

  datatype Tree = Tree(dirs: set<Path>, files: map<Path, Content>, links: map<Path, Path>)

  /** The tree a step leaves behind, and whether it completed or raised. */
  datatype Run = Run(tree: Tree, outcome: Outcome<FsError>)

  /**
   * A tree a real filesystem can be in: the root and the working directory
   * exist, each path has one kind, and every ancestor of an entry is a directory.
   */
  ghost predicate Valid(t: Tree) {
    && "/" in t.dirs && "." in t.dirs
    && t.dirs !! t.files.Keys
    && t.dirs !! t.links.Keys
    && t.files.Keys !! t.links.Keys
    && (forall p, q :: p in t.dirs && IsProperAncestor(q, p) ==> q in t.dirs)
    && (forall p, q :: p in t.files && IsProperAncestor(q, p) ==> q in t.dirs)
    && (forall p, q :: p in t.links && IsProperAncestor(q, p) ==> q in t.dirs)
  }

  /** Nothing is removed: directories and files stay, links keep their targets. */
  ghost predicate Grows(t: Tree, u: Tree) {
    && t.dirs <= u.dirs
    && t.files.Keys <= u.files.Keys
    && (forall l :: l in t.links ==> l in u.links && u.links[l] == t.links[l])
  }

  lemma GrowsTransitive(t: Tree, u: Tree, v: Tree)
    requires Grows(t, u) && Grows(u, v)
    ensures Grows(t, v)
  {
  }

  /** A regular file or a link sits on the way to `d`, or at `d` itself. */
  predicate Blocked(t: Tree, d: Path) {
    exists q :: q in Lineage(d) && (q in t.files || q in t.links)
  }

  /** FileUtils.mkdir_p(d): create `d` and every missing directory above it. */
  function MakeDirs(t: Tree, d: Path): Run {
    if exists q :: q in Lineage(d) && q in t.links then Run(t, Fail(SymlinkInPath(d)))
    else if exists q :: q in Lineage(d) && q in t.files then Run(t, Fail(NotADirectory(d)))
    else Run(t.(dirs := t.dirs + Lineage(d)), Pass)
  }

  /** FileUtils.mkdir_p over a list: each path in turn, stopping at the first failure. */
  function MakeDirsAll(t: Tree, ds: seq<Path>): Run
    decreases |ds|
  {
    if ds == [] then Run(t, Pass)
    else
      var r := MakeDirsAll(t, ds[..|ds| - 1]);
      if r.outcome.Fail? then r else MakeDirs(r.tree, ds[|ds| - 1])
  }

  /** Where FileUtils.cp(src, dest) writes: inside `dest` when it is a directory. */
  function CopyTarget(t: Tree, src: Path, dest: Path): Path {
    if dest in t.dirs then Join(dest, Basename(src)) else dest
  }

  /** FileUtils.cp(src, dest) of one regular file. */
  function CopyFile(t: Tree, src: Path, dest: Path): Run {
    var target := CopyTarget(t, src, dest);
    if src in t.dirs then Run(t, Fail(IsADirectory(src)))
    else if src in t.links then Run(t, Fail(SymlinkInPath(src)))
    else if src !in t.files then Run(t, Fail(NoSuchFile(src)))
    else if target == src then Run(t, Fail(SameFile(src)))
    else if target in t.dirs then Run(t, Fail(IsADirectory(target)))
    else if target in t.links then Run(t, Fail(SymlinkInPath(target)))
    else if Parent(target) !in t.dirs then Run(t, Fail(NoSuchFile(Parent(target))))
    else Run(t.(files := t.files[target := t.files[src]]), Pass)
  }

  /**
   * FileUtils.ln_s(target, link, force: force). A directory at `link` is a
   * failure here (the library would put the link inside it); with force an
   * existing file or link at `link` is replaced.
   */
  function MakeLink(t: Tree, target: Path, link: Path, force: bool): Run {
    if link in t.dirs then Run(t, Fail(IsADirectory(link)))
    else if link in t.files || link in t.links then
      if force then Run(t.(files := t.files - {link}, links := t.links[link := target]), Pass)
      else Run(t, Fail(AlreadyExists(link)))
    else if Parent(link) !in t.dirs then Run(t, Fail(NoSuchFile(Parent(link))))
    else Run(t.(links := t.links[link := target]), Pass)
  }

  /**
   * mkdir_p keeps the tree valid, touches no file or link, and either raises
   * without changing anything or leaves `d` and all its ancestors directories.
   */
  lemma {:induction false} MakeDirsEffect(t: Tree, d: Path)
    requires Valid(t)
    ensures var r := MakeDirs(t, d);
      && Valid(r.tree) && Grows(t, r.tree)
      && r.tree.files == t.files && r.tree.links == t.links
      && (r.outcome.Pass? <==> !Blocked(t, d))
      && (r.outcome.Fail? ==> r.tree == t)
      && (r.outcome.Pass? ==> r.tree.dirs == t.dirs + Lineage(d))
  {
    var r := MakeDirs(t, d);
    if r.outcome.Pass? {
      var u := r.tree;
      forall p, q | p in u.dirs && IsProperAncestor(q, p) ensures q in u.dirs {
        if p in Lineage(d) && p != d {
          AncestorTransitive(q, p, d);
        }
      }
    }
  }

  /** mkdir_p of an existing directory changes nothing. */
  lemma {:induction false} MakeDirsExisting(t: Tree, d: Path)
    requires Valid(t) && d in t.dirs
    ensures MakeDirs(t, d) == Run(t, Pass)
  {
    assert Lineage(d) <= t.dirs;
    assert t.dirs + Lineage(d) == t.dirs;
  }

  /**
   * mkdir_p over a list keeps the tree valid and raises exactly when one of
   * the paths is blocked in the starting tree; on success every listed path
   * and every ancestor of it is a directory and nothing else was added.
   */
  lemma {:induction false} MakeDirsAllEffect(t: Tree, ds: seq<Path>)
    requires Valid(t)
    ensures var r := MakeDirsAll(t, ds);
      && Valid(r.tree) && Grows(t, r.tree)
      && r.tree.files == t.files && r.tree.links == t.links
      && (r.outcome.Pass? <==> forall i :: 0 <= i < |ds| ==> !Blocked(t, ds[i]))
      && (r.outcome.Pass? ==> forall i :: 0 <= i < |ds| ==> Lineage(ds[i]) <= r.tree.dirs)
      && (forall q :: q in r.tree.dirs ==> q in t.dirs || exists i :: 0 <= i < |ds| && q in Lineage(ds[i]))
    decreases |ds|
  {
    MakeDirsAllOnly(t, ds);
    if ds != [] {
      var init, d := ds[..|ds| - 1], ds[|ds| - 1];
      MakeDirsAllEffect(t, init);
      var r0 := MakeDirsAll(t, init);
      if r0.outcome.Pass? {
        var r := MakeDirs(r0.tree, d);
        MakeDirsEffect(r0.tree, d);
        GrowsTransitive(t, r0.tree, r.tree);
        assert Blocked(r0.tree, d) == Blocked(t, d);
        if r.outcome.Pass? {
          forall i | 0 <= i < |ds| ensures !Blocked(t, ds[i]) && Lineage(ds[i]) <= r.tree.dirs {
            if i < |init| {
              assert ds[i] == init[i];
            }
          }
        }
      } else {
        var i :| 0 <= i < |init| && Blocked(t, init[i]);
        assert ds[i] == init[i];
      }
    }
  }

  /** mkdir_p over a list adds no directory outside the listed paths' lineages. */
  lemma {:induction false} MakeDirsAllOnly(t: Tree, ds: seq<Path>)
    ensures forall q :: q in MakeDirsAll(t, ds).tree.dirs ==> q in t.dirs || exists i :: 0 <= i < |ds| && q in Lineage(ds[i])
    decreases |ds|
  {
    if ds != [] {
      var init, d := ds[..|ds| - 1], ds[|ds| - 1];
      MakeDirsAllOnly(t, init);
      var r0 := MakeDirsAll(t, init);
      var r := MakeDirsAll(t, ds);
      assert r.tree.dirs <= r0.tree.dirs + Lineage(d);
      forall q | q in r.tree.dirs ensures q in t.dirs || exists i :: 0 <= i < |ds| && q in Lineage(ds[i]) {
        if q !in r0.tree.dirs {
          assert q in Lineage(ds[|ds| - 1]);
        } else if q !in t.dirs {
          var i :| 0 <= i < |init| && q in Lineage(init[i]);
          assert ds[i] == init[i];
        }
      }
    }
  }

  /** cp keeps the tree valid and, on success, writes the source's contents at the copy target only. */
  lemma {:induction false} CopyFileEffect(t: Tree, src: Path, dest: Path)
    requires Valid(t)
    ensures var r := CopyFile(t, src, dest);
      && Valid(r.tree) && Grows(t, r.tree)
      && r.tree.dirs == t.dirs && r.tree.links == t.links
      && (r.outcome.Fail? ==> r.tree == t)
      && (r.outcome.Pass? ==>
            src in t.files && CopyTarget(t, src, dest) != src &&
            r.tree.files == t.files[CopyTarget(t, src, dest) := t.files[src]])
  {
    var r := CopyFile(t, src, dest);
    if r.outcome.Pass? {
      var target := CopyTarget(t, src, dest);
      forall q | IsProperAncestor(q, target) ensures q in t.dirs {
        AncestorsOfParent(target, q);
        if q != Parent(target) {
          assert IsProperAncestor(q, Parent(target));
        }
      }
    }
  }

  /**
   * ln_s keeps the tree valid and never changes directories. On success the
   * link stores `target`. Without force it removes nothing, and it fails
   * whenever something already stands at `link`.
   */
  lemma {:induction false} MakeLinkEffect(t: Tree, target: Path, link: Path, force: bool)
    requires Valid(t)
    ensures var r := MakeLink(t, target, link, force);
      && Valid(r.tree)
      && r.tree.dirs == t.dirs
      && (r.outcome.Fail? ==> r.tree == t)
      && (r.outcome.Pass? ==>
            link in r.tree.links && r.tree.links[link] == target &&
            (Parent(link) in t.dirs || link in t.files || link in t.links))
      && (!force ==> Grows(t, r.tree))
      && (!force && (link in t.dirs || link in t.files || link in t.links) ==> r.outcome.Fail?)
  {
    var r := MakeLink(t, target, link, force);
    if r.outcome.Pass? && link !in t.files && link !in t.links {
      forall q | IsProperAncestor(q, link) ensures q in t.dirs {
        AncestorsOfParent(link, q);
        if q != Parent(link) {
          assert IsProperAncestor(q, Parent(link));
        }
      }
    }
  }

  /**
   * cp of a regular file completes exactly when the source is a file, the
   * copy target is not the source, no directory or link stands at the
   * target, and the target's parent is a directory.
   */
  lemma CopyFilePasses(t: Tree, src: Path, dest: Path)
    requires Valid(t)
    ensures var target := CopyTarget(t, src, dest);
      CopyFile(t, src, dest).outcome.Pass? <==>
        && src in t.files && target != src
        && target !in t.dirs && target !in t.links && Parent(target) in t.dirs
  {
  }

  /**
   * ln_s completes exactly when no directory stands at `link`, force is
   * given if a file or link does, and otherwise the parent of `link` is a directory.
   */
  lemma MakeLinkPasses(t: Tree, target: Path, link: Path, force: bool)
    ensures MakeLink(t, target, link, force).outcome.Pass? <==>
      && link !in t.dirs
      && (link in t.files || link in t.links ==> force)
      && (link !in t.files && link !in t.links ==> Parent(link) in t.dirs)
  {
  }

  /** mkdir_p changes no file or link and adds no directory outside the lineage of `d`. */
  lemma MakeDirsShape(t: Tree, d: Path)
    ensures var r := MakeDirs(t, d);
      r.tree.files == t.files && r.tree.links == t.links && r.tree.dirs <= t.dirs + Lineage(d)
  {
  }

  /** Without force, ln_s changes no file or directory and adds no link other than `link`. */
  lemma MakeLinkShape(t: Tree, target: Path, link: Path)
    ensures var r := MakeLink(t, target, link, false);
      && r.tree.files == t.files && r.tree.dirs == t.dirs
      && (forall l :: l in r.tree.links ==> l in t.links || l == link)
  {
  }

  /** The filesystem as mutable state; each method performs one FileUtils call. */
  class Disk {
    var dirs: set<Path>
    var files: map<Path, Content>
    var links: map<Path, Path>

    function State(): Tree
      reads this
    {
      Tree(dirs, files, links)
    }

    constructor (init: Tree)
      ensures State() == init
    {
      dirs, files, links := init.dirs, init.files, init.links;
    }

    /** File.directory? */
    predicate IsDirectory(p: Path)
      reads this
    {
      p in dirs
    }

    /** File.symlink? */
    predicate IsSymlink(p: Path)
      reads this
    {
      p in links
    }

    /** File.readlink: the target text stored in the link. */
    function ReadLink(p: Path): Path
      requires IsSymlink(p)
      reads this
    {
      links[p]
    }

    /** FileUtils.mkdir_p(d) */
    method MkdirP(d: Path) returns (r: Outcome<FsError>)
      modifies this
      ensures Run(State(), r) == MakeDirs(old(State()), d)
    {
      if exists q :: q in Lineage(d) && q in links {
        r := Fail(SymlinkInPath(d));
      } else if exists q :: q in Lineage(d) && q in files {
        r := Fail(NotADirectory(d));
      } else {
        dirs := dirs + Lineage(d);
        r := Pass;
      }
    }

    /** FileUtils.mkdir_p(list) */
    method MkdirPList(ds: seq<Path>) returns (r: Outcome<FsError>)
      modifies this
      ensures Run(State(), r) == MakeDirsAll(old(State()), ds)
    {
      ghost var t0 := State();
      r := Pass;
      var i := 0;
      while i < |ds|
        invariant 0 <= i <= |ds|
        invariant MakeDirsAll(t0, ds[..i]) == Run(State(), Pass) && r == Pass
      {
        assert ds[..i + 1][..i] == ds[..i];
        r := MkdirP(ds[i]);
        assert MakeDirsAll(t0, ds[..i + 1]) == Run(State(), r);
        if r.Fail? {
          MakeDirsAllFailStays(t0, ds, i + 1);
          return;
        }
        i := i + 1;
      }
      assert ds[..i] == ds;
    }

    /** FileUtils.cp(src, dest) */
    method Cp(src: Path, dest: Path) returns (r: Outcome<FsError>)
      modifies this
      ensures Run(State(), r) == CopyFile(old(State()), src, dest)
    {
      var target := if dest in dirs then Join(dest, Basename(src)) else dest;
      if src in dirs {
        r := Fail(IsADirectory(src));
      } else if src in links {
        r := Fail(SymlinkInPath(src));
      } else if src !in files {
        r := Fail(NoSuchFile(src));
      } else if target == src {
        r := Fail(SameFile(src));
      } else if target in dirs {
        r := Fail(IsADirectory(target));
      } else if target in links {
        r := Fail(SymlinkInPath(target));
      } else if Parent(target) !in dirs {
        r := Fail(NoSuchFile(Parent(target)));
      } else {
        files := files[target := files[src]];
        r := Pass;
      }
    }

    /** FileUtils.ln_s(target, link, force: force) */
    method LnS(target: Path, link: Path, force: bool) returns (r: Outcome<FsError>)
      modifies this
      ensures Run(State(), r) == MakeLink(old(State()), target, link, force)
    {
      if link in dirs {
        r := Fail(IsADirectory(link));
      } else if link in files || link in links {
        if force {
          files := files - {link};
          links := links[link := target];
          r := Pass;
        } else {
          r := Fail(AlreadyExists(link));
        }
      } else if Parent(link) !in dirs {
        r := Fail(NoSuchFile(Parent(link)));
      } else {
        links := links[link := target];
        r := Pass;
      }
    }
  }

  /** The parent of anything in a valid tree is a directory. */
  lemma {:induction false} ParentOfEntry(t: Tree, p: Path)
    requires Valid(t) && (p in t.dirs || p in t.files || p in t.links)
    ensures Parent(p) in t.dirs
  {
    match LastSep(p)
    case None =>
    case Some(k) =>
      if k > 0 {
        assert IsProperAncestor(p[..k], p);
      }
  }

  /** Once mkdir_p over a list has failed, later paths do not change the result. */
  lemma {:induction false} MakeDirsAllFailStays(t: Tree, ds: seq<Path>, n: nat)
    requires 0 < n <= |ds| && MakeDirsAll(t, ds[..n]).outcome.Fail?
    ensures MakeDirsAll(t, ds) == MakeDirsAll(t, ds[..n])
    decreases |ds| - n
  {
    if n < |ds| {
      assert ds[..n + 1][..n] == ds[..n];
      MakeDirsAllFailStays(t, ds, n + 1);
    } else {
      assert ds[..n] == ds;
    }
  }
}
