/**
 * Packaging::Platform: where one platform build of a project stages its
 * files and where its package goes, and the first three staging steps of
 * prep_package (directory skeleton, binaries, command symlinks) run over
 * the filesystem of FileSystem.Disk.
 */
module Platforms {

  import opened Wrappers
  import opened Paths
  import opened FileSystem
  import opened Strings
  import Lists
  import Util

  /** The parts of Packaging.config the layout reads. */
  datatype Config = Config(tmpPath: Path, pkgPath: Path, projectPath: Path)

  /** The parts of the project the layout reads. */
  datatype Project = Project(name: string)

  /**
   * A platform as the build script leaves it once its accessors are set:
   * the installation directories, the optional service directory and the
   * optional build VM. The staging steps never change these fields.
   */
  datatype Platform = Platform(
    name: string,
    project: Project,
    config: Config,
    osName: string,
    osVersion: string,
    osarch: string,
    bin: Path,
    etc: Path,
    log: Path,
    opt: Path,
    man: Path,
    serviceDir: Option<Path>,
    buildVm: Option<string>)

  datatype PlatformError =
    | ProjectMissing(projectName: string)  // the intended "the project ... does not exist." failure
    | NameOfNil                             // NoMethodError: `name` called on a nil project

  // ---------------------------------------------------------------------------
  // Construction

  /** The fields `initialize` sets, once the project is known. */
  function Defaults(name: string, project: Project, config: Config,
                    osName: string, osVersion: string, osarch: string): Platform
  {
    var opt := "/opt";
    Platform(name, project, config, osName, osVersion, osarch,
             "/usr/bin", "/etc", "/var/log", opt, Join(Join(opt, project.name), "share/man"),
             None, None)
  }

  /**
   * Platform.new as written: `Packaging.get project_name || fail(...)`
   * passes `project_name || fail(...)` to Packaging.get, so the fail never
   * runs for a named project, a missing project leaves @project nil, and
   * the next line raises on `@project.name`. `found` is the lookup's answer;
   * the os fields are the accessors the build script sets before staging.
   */
  function NewAsWritten(name: string, projectName: string, found: Option<Project>, config: Config,
                        osName: string, osVersion: string, osarch: string): (r: Result<Platform, PlatformError>)
    ensures r.Err? <==> found.None?
    ensures r.Err? ==> r.error == NameOfNil
  {
    match found
    case None => Err(NameOfNil)
    case Some(project) => Ok(Defaults(name, project, config, osName, osVersion, osarch))
  }

  /** Platform.new as intended: a missing project fails with its own message. */
  function New(name: string, projectName: string, found: Option<Project>, config: Config,
               osName: string, osVersion: string, osarch: string): (r: Result<Platform, PlatformError>)
    ensures r.Err? <==> found.None?
    ensures r.Err? ==> r.error == ProjectMissing(projectName)
    ensures r.Ok? ==> r.value == Defaults(name, found.value, config, osName, osVersion, osarch)
  {
    match found
    case None => Err(ProjectMissing(projectName))
    case Some(project) => Ok(Defaults(name, project, config, osName, osVersion, osarch))
  }

  /**
   * The two constructors agree on every project that exists and differ only
   * in the error a missing one raises.
   */
  lemma NewMissingProject(name: string, projectName: string, found: Option<Project>, config: Config,
                          osName: string, osVersion: string, osarch: string)
    ensures found.Some? ==>
      NewAsWritten(name, projectName, found, config, osName, osVersion, osarch)
      == New(name, projectName, found, config, osName, osVersion, osarch)
    ensures found.None? ==>
      && NewAsWritten(name, projectName, found, config, osName, osVersion, osarch) == Err(NameOfNil)
      && New(name, projectName, found, config, osName, osVersion, osarch) == Err(ProjectMissing(projectName))
  {
  }

  // ---------------------------------------------------------------------------
  // Skeleton directories

  /** The literal list of skel_directories, before uniq and compact. */
  function SkelLiteral(p: Platform): seq<Option<Path>> {
    [ Some(p.bin),
      Some(Join(p.etc, p.project.name)),
      Some(Join(Join(p.etc, p.project.name), "keyrings")),
      p.serviceDir,
      Some(Join(p.log, p.project.name)),
      Some(Join(Join(p.opt, p.project.name), "/bin")),
      Some(Join(Join(p.opt, p.project.name), "/plugins")),
      Some(Join(p.man, "man1")),
      Some(Join(p.man, "man5")),
      Some(Join(p.man, "man8")) ]
  }

  /** skel_directories: the literal list with repeats and the nil removed. */
  function SkelDirectories(p: Platform): seq<Path> {
    Lists.Compact(Lists.Uniq(SkelLiteral(p)))
  }

  /**
   * The skeleton lists each directory of the literal once, has no nil, has
   * the service directory exactly when one is set, and keeps the order in
   * which the directories first appear in the literal.
   */
  lemma SkelDirectoriesSpec(p: Platform)
    ensures Lists.Distinct(SkelDirectories(p))
    ensures forall d :: d in SkelDirectories(p) ==> Some(d) in SkelLiteral(p)
    ensures forall d :: Some(d) in SkelLiteral(p) ==> d in SkelDirectories(p)
    ensures p.serviceDir.Some? ==> p.serviceDir.value in SkelDirectories(p)
    ensures Lists.InFirstOrder(SkelDirectories(p), Lists.Compact(SkelLiteral(p)))
  {
    Lists.CompactUniqSpec(SkelLiteral(p));
    if p.serviceDir.Some? {
      ServiceDirListed(p);
    }
  }

  lemma ServiceDirListed(p: Platform)
    requires p.serviceDir.Some?
    ensures p.serviceDir in SkelLiteral(p)
  {
    assert SkelLiteral(p)[3] == p.serviceDir;
  }

  /**
   * With the directories the constructor sets and a plain project name,
   * the skeleton holds the command directory, the configuration, keyring,
   * log, binary and plugin directories of the project and the three manual
   * sections under /opt/<project>/share/man.
   */
  lemma DefaultSkeleton(name: string, project: Project, config: Config,
                        osName: string, osVersion: string, osarch: string)
    requires IsSegment(project.name)
    ensures var p := Defaults(name, project, config, osName, osVersion, osarch);
      var n, skel := project.name, SkelDirectories(p);
      && p.man == "/opt/" + n + "/share/man"
      && "/usr/bin" in skel
      && "/etc/" + n in skel
      && "/etc/" + n + "/keyrings" in skel
      && "/var/log/" + n in skel
      && "/opt/" + n + "/bin" in skel
      && "/opt/" + n + "/plugins" in skel
      && "/opt/" + n + "/share/man/man1" in skel
      && "/opt/" + n + "/share/man/man5" in skel
      && "/opt/" + n + "/share/man/man8" in skel
  {
    var p := Defaults(name, project, config, osName, osVersion, osarch);
    SkeletonUnderRoots(p, "/etc/", "/var/log/", "/opt/");
  }

  /**
   * The skeleton entries spelled out for any roots without a trailing
   * separator: `rootSlash` is the root followed by one separator.
   */
  lemma SkeletonUnderRoots(p: Platform, etcSlash: Path, logSlash: Path, optSlash: Path)
    requires IsSegment(p.project.name)
    requires p.etc != [] && !EndsWithSep(p.etc) && etcSlash == p.etc + "/"
    requires p.log != [] && !EndsWithSep(p.log) && logSlash == p.log + "/"
    requires p.opt != [] && !EndsWithSep(p.opt) && optSlash == p.opt + "/"
    requires p.man == Join(Join(p.opt, p.project.name), "share/man")
    ensures var n, skel := p.project.name, SkelDirectories(p);
      && p.man == optSlash + n + "/share/man"
      && p.bin in skel
      && etcSlash + n in skel
      && etcSlash + n + "/keyrings" in skel
      && logSlash + n in skel
      && optSlash + n + "/bin" in skel
      && optSlash + n + "/plugins" in skel
      && optSlash + n + "/share/man/man1" in skel
      && optSlash + n + "/share/man/man5" in skel
      && optSlash + n + "/share/man/man8" in skel
  {
    var n := p.project.name;
    FixedEntriesListed(p);
    UnderRoot(p.etc, etcSlash, n);
    UnderRoot(p.log, logSlash, n);
    SegmentThen(etcSlash, n, "keyrings", "/keyrings");
    OptEntries(p, optSlash);
  }

  /** Every fixed entry of the literal is a skeleton directory. */
  lemma FixedEntriesListed(p: Platform)
    ensures var n, skel := p.project.name, SkelDirectories(p);
      && p.bin in skel
      && Join(p.etc, n) in skel
      && Join(Join(p.etc, n), "keyrings") in skel
      && Join(p.log, n) in skel
      && Join(Join(p.opt, n), "/bin") in skel
      && Join(Join(p.opt, n), "/plugins") in skel
      && Join(p.man, "man1") in skel
      && Join(p.man, "man5") in skel
      && Join(p.man, "man8") in skel
  {
    LiteralEntries(p);
    SkelDirectoriesSpec(p);
  }

  /** The entries under the opt root, in their literal form. */
  lemma OptEntries(p: Platform, optSlash: Path)
    requires IsSegment(p.project.name)
    requires p.opt != [] && !EndsWithSep(p.opt) && optSlash == p.opt + "/"
    requires p.man == Join(Join(p.opt, p.project.name), "share/man")
    ensures var n := p.project.name;
      && p.man == optSlash + n + "/share/man"
      && Join(Join(p.opt, n), "/bin") == optSlash + n + "/bin"
      && Join(Join(p.opt, n), "/plugins") == optSlash + n + "/plugins"
      && Join(p.man, "man1") == optSlash + n + "/share/man/man1"
      && Join(p.man, "man5") == optSlash + n + "/share/man/man5"
      && Join(p.man, "man8") == optSlash + n + "/share/man/man8"
  {
    var n := p.project.name;
    UnderRoot(p.opt, optSlash, n);
    SegmentThen(optSlash, n, "share/man", "/share/man");
    AbsoluteAfterSegment(optSlash, n, "/bin");
    AbsoluteAfterSegment(optSlash, n, "/plugins");
    ManSection(optSlash, n, "man1", "/share/man/man1");
    ManSection(optSlash, n, "man5", "/share/man/man5");
    ManSection(optSlash, n, "man8", "/share/man/man8");
  }

  /** A segment joined onto a root without a trailing separator. */
  lemma UnderRoot(root: Path, rootSlash: Path, n: string)
    requires root != [] && !EndsWithSep(root) && rootSlash == root + "/" && IsSegment(n)
    ensures Join(root, n) == rootSlash + n
  {
    JoinPlain(root, n);
  }

  /** A relative part joined after a segment. */
  lemma SegmentThen(head: Path, n: string, rel: Path, slashRel: Path)
    requires IsSegment(n) && rel != [] && rel[0] != '/' && slashRel == "/" + rel
    ensures Join(head + n, rel) == head + n + slashRel
  {
    assert (head + n)[|head + n| - 1] == n[|n| - 1];
    JoinPlain(head + n, rel);
  }

  /** An absolute part joined after a segment keeps the segment. */
  lemma AbsoluteAfterSegment(head: Path, n: string, abs: Path)
    requires IsSegment(n) && StartsWithSep(abs)
    ensures Join(head + n, abs) == head + n + abs
  {
    assert (head + n)[|head + n| - 1] == n[|n| - 1];
    JoinAbsolute(head + n, abs);
  }

  /** A manual section joined onto "<root>/<project>/share/man". */
  lemma ManSection(head: Path, n: string, section: Path, tail: Path)
    requires IsSegment(n) && section != [] && section[0] != '/' && tail == "/share/man/" + section
    ensures Join(head + n + "/share/man", section) == head + n + tail
  {
    var man := head + n + "/share/man";
    assert man[|man| - 1] == 'n';
    JoinPlain(man, section);
    assert man + "/" + section == head + n + tail;
  }

  // ---------------------------------------------------------------------------
  // Roots

  /** tmp_path: the staging root of this platform. */
  function TmpPath(p: Platform): Path {
    Join(Join(p.config.tmpPath, p.osName), p.osVersion)
  }

  /** out_path: where the package is written. */
  function OutPath(p: Platform): Path {
    Join(Join(Join(p.config.pkgPath, "os"), p.osName), p.osVersion)
  }

  /** go_binary_path: where the compiled binaries for this architecture are. */
  function GoBinaryPath(p: Platform): Path {
    Join(p.config.pkgPath, p.osarch)
  }

  /**
   * With configured roots without a trailing separator, names for the os,
   * its version and the architecture that do not start with a separator, and
   * an os name that is not empty and does not end with one, the three roots
   * are the configured ones with the names appended, one separator each.
   */
  lemma RootsSpelledOut(p: Platform)
    requires !EndsWithSep(p.config.tmpPath) && !EndsWithSep(p.config.pkgPath)
    requires p.osName != [] && !StartsWithSep(p.osName) && !EndsWithSep(p.osName)
    requires !StartsWithSep(p.osVersion) && !StartsWithSep(p.osarch)
    ensures TmpPath(p) == p.config.tmpPath + "/" + p.osName + "/" + p.osVersion
    ensures OutPath(p) == p.config.pkgPath + "/os/" + p.osName + "/" + p.osVersion
    ensures GoBinaryPath(p) == p.config.pkgPath + "/" + p.osarch
  {
    var tmp, pkg := p.config.tmpPath, p.config.pkgPath;
    JoinPlain(tmp, p.osName);
    JoinPlain(tmp + "/" + p.osName, p.osVersion);
    JoinPlain(pkg, "os");
    JoinPlain(pkg + "/os", p.osName);
    JoinPlain(pkg + "/os" + "/" + p.osName, p.osVersion);
    assert pkg + "/os" + "/" + p.osName == pkg + "/os/" + p.osName;
    JoinPlain(pkg, p.osarch);
  }

  // ---------------------------------------------------------------------------
  // Paths as the build VM sees them

  /** String#sub(pat, ''): the first occurrence of `pat` removed. */
  function SubFirst(s: string, pat: string): string {
    match FindFrom(s, pat, 0)
    case None => s
    case Some(k) => s[..k] + s[k + |pat|..]
  }

  /** `pat` occurs at `k` and nowhere before. */
  ghost predicate FirstOccurrence(s: string, pat: string, k: nat) {
    OccursAt(s, pat, k) && forall j :: 0 <= j < k ==> !OccursAt(s, pat, j)
  }

  /**
   * sub removes the leftmost occurrence of the pattern and only that one,
   * and returns the text unchanged when the pattern does not occur.
   */
  lemma SubFirstSpec(s: string, pat: string)
    ensures forall k: nat :: FirstOccurrence(s, pat, k) ==> SubFirst(s, pat) == s[..k] + s[k + |pat|..]
    ensures (forall j :: 0 <= j <= |s| ==> !OccursAt(s, pat, j)) ==> SubFirst(s, pat) == s
  {
    FindFromSpec(s, pat, 0);
    forall k: nat | FirstOccurrence(s, pat, k) ensures FindFrom(s, pat, 0) == Some(k) {
      if FindFrom(s, pat, 0).Some? {
        var f := FindFrom(s, pat, 0).value;
        assert !(k < f) && !(f < k);
      }
    }
  }

  /** fpm_tmp_path */
  function FpmTmpPath(p: Platform): Path {
    if p.buildVm.Some? then SubFirst(TmpPath(p), p.config.projectPath) else TmpPath(p)
  }

  /** fpm_output_path */
  function FpmOutputPath(p: Platform): Path {
    if p.buildVm.Some? then SubFirst(OutPath(p), p.config.projectPath) else OutPath(p)
  }

  /**
   * Without a build VM the fpm paths are the local roots. With one, a root
   * inside the project directory becomes relative to it, and a root outside
   * it is left alone.
   */
  lemma FpmPaths(p: Platform)
    ensures p.buildVm.None? ==> FpmTmpPath(p) == TmpPath(p) && FpmOutputPath(p) == OutPath(p)
    ensures p.buildVm.Some? && p.config.projectPath <= TmpPath(p) ==>
      FpmTmpPath(p) == TmpPath(p)[|p.config.projectPath|..]
    ensures p.buildVm.Some? && p.config.projectPath <= OutPath(p) ==>
      FpmOutputPath(p) == OutPath(p)[|p.config.projectPath|..]
    ensures p.buildVm.Some? && (forall j :: 0 <= j <= |TmpPath(p)| ==> !OccursAt(TmpPath(p), p.config.projectPath, j)) ==>
      FpmTmpPath(p) == TmpPath(p)
    ensures p.buildVm.Some? && (forall j :: 0 <= j <= |OutPath(p)| ==> !OccursAt(OutPath(p), p.config.projectPath, j)) ==>
      FpmOutputPath(p) == OutPath(p)
  {
    var pat := p.config.projectPath;
    SubFirstSpec(TmpPath(p), pat);
    SubFirstSpec(OutPath(p), pat);
    if pat <= TmpPath(p) {
      assert FirstOccurrence(TmpPath(p), pat, 0);
    }
    if pat <= OutPath(p) {
      assert FirstOccurrence(OutPath(p), pat, 0);
    }
  }

  // ---------------------------------------------------------------------------
  // Staging paths

  /** The skeleton directories rebased under the staging root. */
  function Rebased(p: Platform): (r: seq<Path>)
    ensures |r| == |SkelDirectories(p)|
  {
    var root, skel := TmpPath(p), SkelDirectories(p);
    seq(|skel|, i requires 0 <= i < |skel| => Join(root, skel[i]))
  }

  /** The staged directory of the project's binaries: tmp_path/opt/<project>/bin. */
  function OptBinDir(p: Platform): Path {
    Join(Join(Join(TmpPath(p), p.opt), p.project.name), "bin")
  }

  /** Where cp puts a binary when the staged binary directory exists. */
  function StagedBinary(p: Platform, file: Path): Path {
    Join(OptBinDir(p), Basename(file))
  }

  /** The staged directory of the command links: tmp_path/<bin>. */
  function LinkDir(p: Platform): Path {
    Join(TmpPath(p), p.bin)
  }

  /** The installed directory of the binaries: <opt>/<project>/bin. */
  function InstalledBinDir(p: Platform): Path {
    Join(Join(p.opt, p.project.name), "bin")
  }

  /** The staged command link of a binary: tmp_path/<bin>/<basename>. */
  function LinkPath(p: Platform, file: Path): Path {
    Join(LinkDir(p), Basename(file))
  }

  /** The text the command link stores: the installed binary, <opt>/<project>/bin/<basename>. */
  function LinkTarget(p: Platform, file: Path): Path {
    Join(InstalledBinDir(p), Basename(file))
  }

  /** "<opt>/<project>/bin" is an entry of the skeleton. */
  lemma OptBinListed(p: Platform)
    ensures Join(Join(p.opt, p.project.name), "/bin") in SkelDirectories(p)
  {
    LiteralEntries(p);
    SkelDirectoriesSpec(p);
  }

  /** Every fixed entry of the literal, by position. */
  lemma LiteralEntries(p: Platform)
    ensures var n, lit := p.project.name, SkelLiteral(p);
      && Some(p.bin) in lit
      && Some(Join(p.etc, n)) in lit
      && Some(Join(Join(p.etc, n), "keyrings")) in lit
      && Some(Join(p.log, n)) in lit
      && Some(Join(Join(p.opt, n), "/bin")) in lit
      && Some(Join(Join(p.opt, n), "/plugins")) in lit
      && Some(Join(p.man, "man1")) in lit
      && Some(Join(p.man, "man5")) in lit
      && Some(Join(p.man, "man8")) in lit
  {
    var lit := SkelLiteral(p);
    assert lit[0] == Some(p.bin);
    assert lit[1] == Some(Join(p.etc, p.project.name));
    assert lit[2] == Some(Join(Join(p.etc, p.project.name), "keyrings"));
    assert lit[4] == Some(Join(p.log, p.project.name));
    assert lit[5] == Some(Join(Join(p.opt, p.project.name), "/bin"));
    assert lit[6] == Some(Join(Join(p.opt, p.project.name), "/plugins"));
    assert lit[7] == Some(Join(p.man, "man1"));
    assert lit[8] == Some(Join(p.man, "man5"));
    assert lit[9] == Some(Join(p.man, "man8"));
  }

  /**
   * The directory package_binary copies into is the rebased "<opt>/<project>/bin"
   * entry of the skeleton: "/bin" and "bin" give the same path once the
   * project name is a plain segment.
   */
  lemma {:induction false} OptBinIsRebased(p: Platform)
    requires IsSegment(p.project.name) && p.opt != []
    ensures OptBinDir(p) == Join(TmpPath(p), Join(Join(p.opt, p.project.name), "/bin"))
  {
    var t, n := TmpPath(p), p.project.name;
    var x := Join(p.opt, n);
    JoinAssoc(t, x, "/bin");
    JoinAssoc(t, p.opt, n);
    BinAfterSegment(Join(Join(t, p.opt), n), n);
  }

  /** After a path ending in a segment, "bin" and "/bin" join alike. */
  lemma BinAfterSegment(y: Path, n: Path)
    requires IsSegment(n) && |y| >= |n| && y[|y| - |n|..] == n
    ensures Join(y, "bin") == Join(y, "/bin")
  {
    assert y[|y| - 1] == n[|n| - 1];
    JoinPlain(y, "bin");
    JoinAbsolute(y, "/bin");
    assert TrimTrailing(y) == y;
  }

  /**
   * With plain names, the link lives under the staging root's bin directory
   * while the text it stores is the installed path under opt, not a path
   * under the staging root.
   */
  lemma LinkPair(p: Platform, file: Path)
    requires IsSegment(p.project.name) && IsSegment(Basename(file))
    requires p.opt != [] && !EndsWithSep(p.opt) && StartsWithSep(p.bin) && !EndsWithSep(p.bin)
    ensures LinkTarget(p, file) == p.opt + "/" + p.project.name + "/bin/" + Basename(file)
    ensures LinkPath(p, file) == TrimTrailing(TmpPath(p)) + p.bin + "/" + Basename(file)
  {
    var n, b := p.project.name, Basename(file);
    JoinPlain(p.opt, n);
    ParentOfJoin(p.opt + "/" + n, "bin");
    var d := p.opt + "/" + n;
    ParentOfJoin(d + "/" + "bin", b);
    SlashBin(d, b);
    JoinAbsolute(TmpPath(p), p.bin);
    var l := TrimTrailing(TmpPath(p)) + p.bin;
    assert l[|l| - 1] == p.bin[|p.bin| - 1];
    ParentOfJoin(l, b);
  }

  lemma SlashBin(d: Path, b: Path)
    ensures d + "/" + "bin" + "/" + b == d + "/bin/" + b
  {
    assert "/" + "bin" + "/" == "/bin/";
    assert d + "/" + "bin" + "/" + b == d + ("/" + "bin" + "/") + b;
  }


  // ---------------------------------------------------------------------------
  // Staging steps as functions of the tree

  /** create_skeleton: FileUtils.mkdir_p of the rebased skeleton. */
  function SkeletonRun(t: Tree, p: Platform): Run {
    MakeDirsAll(t, Rebased(p))
  }

  /** The loop of package_binary: FileUtils.cp of each binary into `dir`, in order. */
  function CopyAll(t: Tree, files: seq<Path>, dir: Path): Run
    decreases |files|
  {
    if files == [] then Run(t, Pass)
    else
      var r := CopyAll(t, files[..|files| - 1], dir);
      if r.outcome.Fail? then r else CopyFile(r.tree, files[|files| - 1], dir)
  }

  /**
   * The loop of create_symlink: Util.ln_s, without force, of a link named
   * after each binary in `linkDir` that stores the same name under `targetDir`.
   */
  function LinkAll(t: Tree, files: seq<Path>, linkDir: Path, targetDir: Path): Run
    decreases |files|
  {
    if files == [] then Run(t, Pass)
    else
      var r := LinkAll(t, files[..|files| - 1], linkDir, targetDir);
      var b := Basename(files[|files| - 1]);
      if r.outcome.Fail? then r else Util.SafeLink(r.tree, Join(linkDir, b), Join(targetDir, b), false)
  }

  /** package_binary */
  function BinaryRun(t: Tree, p: Platform, files: seq<Path>): Run {
    CopyAll(t, files, OptBinDir(p))
  }

  /** create_symlink */
  function SymlinkRun(t: Tree, p: Platform, files: seq<Path>): Run {
    LinkAll(t, files, LinkDir(p), InstalledBinDir(p))
  }

  /** The first three steps of prep_package, each run only when the one before completed. */
  function PrepRun(t: Tree, p: Platform, files: seq<Path>): Run {
    var s := SkeletonRun(t, p);
    if s.outcome.Fail? then s
    else
      var b := BinaryRun(s.tree, p, files);
      if b.outcome.Fail? then b else SymlinkRun(b.tree, p, files)
  }

  lemma {:induction false} CopyAllFailStays(t: Tree, files: seq<Path>, dir: Path, n: nat)
    requires 0 < n <= |files| && CopyAll(t, files[..n], dir).outcome.Fail?
    ensures CopyAll(t, files, dir) == CopyAll(t, files[..n], dir)
    decreases |files| - n
  {
    if n < |files| {
      assert files[..n + 1][..n] == files[..n];
      CopyAllFailStays(t, files, dir, n + 1);
    } else {
      assert files[..n] == files;
    }
  }

  lemma {:induction false} LinkAllFailStays(t: Tree, files: seq<Path>, linkDir: Path, targetDir: Path, n: nat)
    requires 0 < n <= |files| && LinkAll(t, files[..n], linkDir, targetDir).outcome.Fail?
    ensures LinkAll(t, files, linkDir, targetDir) == LinkAll(t, files[..n], linkDir, targetDir)
    decreases |files| - n
  {
    if n < |files| {
      assert files[..n + 1][..n] == files[..n];
      LinkAllFailStays(t, files, linkDir, targetDir, n + 1);
    } else {
      assert files[..n] == files;
    }
  }

  // ---------------------------------------------------------------------------
  // What the staging steps leave behind

  /**
   * create_skeleton keeps the tree valid and touches no file or link. It
   * raises exactly when a file or link stands on the way to one of the
   * rebased directories; otherwise every skeleton directory exists under
   * the staging root, with all its ancestors.
   */
  lemma {:induction false} SkeletonEffect(t: Tree, p: Platform)
    requires Valid(t)
    ensures var r := SkeletonRun(t, p);
      && Valid(r.tree) && Grows(t, r.tree)
      && r.tree.files == t.files && r.tree.links == t.links
      && (r.outcome.Pass? <==> forall d :: d in SkelDirectories(p) ==> !Blocked(t, Join(TmpPath(p), d)))
      && (r.outcome.Pass? ==> forall d :: d in SkelDirectories(p) ==> Lineage(Join(TmpPath(p), d)) <= r.tree.dirs)
  {
    var ds, skel := Rebased(p), SkelDirectories(p);
    MakeDirsAllEffect(t, ds);
    assert forall i :: 0 <= i < |skel| ==> ds[i] == Join(TmpPath(p), skel[i]);
    forall d | d in skel ensures exists i :: 0 <= i < |ds| && ds[i] == Join(TmpPath(p), d) {
      var i :| 0 <= i < |skel| && skel[i] == d;
      assert ds[i] == Join(TmpPath(p), d);
    }
  }

  /**
   * Copying binaries keeps the tree valid and changes no directory and no
   * link. An empty binary list changes nothing. When `dir` exists and the
   * copying completes, every binary has a copy with the same basename in `dir`.
   */
  lemma {:induction false} CopyAllEffect(t: Tree, files: seq<Path>, dir: Path)
    requires Valid(t)
    ensures var r := CopyAll(t, files, dir);
      && Valid(r.tree) && Grows(t, r.tree)
      && r.tree.dirs == t.dirs && r.tree.links == t.links
      && (files == [] ==> r == Run(t, Pass))
      && (r.outcome.Pass? && dir in t.dirs ==>
            forall i :: 0 <= i < |files| ==> Join(dir, Basename(files[i])) in r.tree.files)
    decreases |files|
  {
    if files != [] {
      var init, f := files[..|files| - 1], files[|files| - 1];
      CopyAllEffect(t, init, dir);
      var r0 := CopyAll(t, init, dir);
      if r0.outcome.Pass? {
        var r := CopyFile(r0.tree, f, dir);
        CopyFileEffect(r0.tree, f, dir);
        GrowsTransitive(t, r0.tree, r.tree);
        if r.outcome.Pass? && dir in t.dirs {
          CopyStep(r0.tree, f, dir);
          CopiesPresent(files, init, dir, r0.tree.files, r.tree.files);
        }
      }
    }
  }

  /** The copies made before the last binary stay, and the last one's is added. */
  lemma CopiesPresent(files: seq<Path>, init: seq<Path>, dir: Path, before: map<Path, Content>, after: map<Path, Content>)
    requires files != [] && init == files[..|files| - 1]
    requires forall i :: 0 <= i < |init| ==> Join(dir, Basename(init[i])) in before
    requires before.Keys <= after.Keys && Join(dir, Basename(files[|files| - 1])) in after
    ensures forall i :: 0 <= i < |files| ==> Join(dir, Basename(files[i])) in after
  {
    forall i | 0 <= i < |files| ensures Join(dir, Basename(files[i])) in after {
      if i < |files| - 1 {
        assert init[i] == files[i];
      }
    }
  }

  /** The binaries' copies do not collide: distinct basenames, and no binary is itself a copy target. */
  ghost predicate NoClash(files: seq<Path>, dir: Path) {
    && (forall i, j :: 0 <= i < j < |files| ==> Basename(files[i]) != Basename(files[j]))
    && (forall i, j :: 0 <= i < |files| && 0 <= j < |files| ==> files[i] != Join(dir, Basename(files[j])))
  }

  /** `f` is none of the copy targets of `files`. */
  ghost predicate NotStaged(files: seq<Path>, dir: Path, f: Path) {
    forall j :: 0 <= j < |files| ==> f != Join(dir, Basename(files[j]))
  }

  /** Copying into an existing directory leaves every file that is not a copy target as it was. */
  lemma {:induction false} CopyAllKeeps(t: Tree, files: seq<Path>, dir: Path)
    requires Valid(t) && dir in t.dirs
    requires CopyAll(t, files, dir).outcome.Pass?
    ensures var r := CopyAll(t, files, dir);
      && (forall g :: g in t.files && NotStaged(files, dir, g) ==> g in r.tree.files && r.tree.files[g] == t.files[g])
      && (forall g :: g in r.tree.files && NotStaged(files, dir, g) ==> g in t.files)
    decreases |files|
  {
    if files != [] {
      var init, f := files[..|files| - 1], files[|files| - 1];
      CopyAllKeeps(t, init, dir);
      CopyAllEffect(t, init, dir);
      var r0 := CopyAll(t, init, dir);
      CopyStep(r0.tree, f, dir);
      var after := CopyAll(t, files, dir).tree.files;
      assert after == r0.tree.files[Join(dir, Basename(f)) := r0.tree.files[f]];
      forall g | NotStaged(files, dir, g)
        ensures NotStaged(init, dir, g) && g != Join(dir, Basename(f))
      {
        NotStagedInit(files, init, dir, g);
      }
    }
  }

  /** What is none of the copy targets is none of the earlier ones, nor the last one. */
  lemma NotStagedInit(files: seq<Path>, init: seq<Path>, dir: Path, g: Path)
    requires files != [] && init == files[..|files| - 1] && NotStaged(files, dir, g)
    ensures NotStaged(init, dir, g) && g != Join(dir, Basename(files[|files| - 1]))
  {
    forall j | 0 <= j < |init| ensures g != Join(dir, Basename(init[j])) {
      assert init[j] == files[j];
    }
  }

  /** Every binary had contents in `before`, and its copy in `dir` holds them in `after`. */
  ghost predicate CopiesHold(files: seq<Path>, dir: Path, before: map<Path, Content>, after: map<Path, Content>) {
    forall i :: 0 <= i < |files| ==>
      files[i] in before && Join(dir, Basename(files[i])) in after &&
      after[Join(dir, Basename(files[i]))] == before[files[i]]
  }

  /** Without clashes, each copy holds the contents its binary had before the copying began. */
  lemma {:induction false} CopyAllContents(t: Tree, files: seq<Path>, dir: Path)
    requires Valid(t) && dir in t.dirs && dir != [] && NoClash(files, dir)
    requires CopyAll(t, files, dir).outcome.Pass?
    ensures CopiesHold(files, dir, t.files, CopyAll(t, files, dir).tree.files)
    decreases |files|
  {
    if files != [] {
      var init, f := files[..|files| - 1], files[|files| - 1];
      var r0 := CopyAll(t, init, dir);
      var r := CopyFile(r0.tree, f, dir);
      assert CopyAll(t, files, dir) == r && r0.outcome.Pass? && r.outcome.Pass? by {
        assert CopyAll(t, files, dir) == (if r0.outcome.Fail? then r0 else r);
      }
      NoClashInit(files, init, dir);
      CopyAllContents(t, init, dir);
      var target := Join(dir, Basename(f));
      assert f in t.files && r.tree.files == r0.tree.files[target := t.files[f]] by {
        CopyAllEffect(t, init, dir);
        CopyAllKeeps(t, init, dir);
        CopyStep(r0.tree, f, dir);
      }
      CopiesExtend(files, dir, t.files, r0.tree.files);
    }
  }

  /**
   * Without clashes, the earlier binaries do not clash either, the last one
   * is none of their copy targets, and its copy target is none of theirs.
   */
  lemma NoClashInit(files: seq<Path>, init: seq<Path>, dir: Path)
    requires files != [] && init == files[..|files| - 1] && dir != [] && NoClash(files, dir)
    ensures NoClash(init, dir) && NotStaged(init, dir, files[|files| - 1])
    ensures forall i :: 0 <= i < |files| - 1 ==> Join(dir, Basename(files[i])) != Join(dir, Basename(files[|files| - 1]))
  {
    assert forall i :: 0 <= i < |init| ==> files[i] == init[i];
    forall i | 0 <= i < |files| - 1
      ensures Join(dir, Basename(files[i])) != Join(dir, Basename(files[|files| - 1]))
    {
      JoinInjective(dir, Basename(files[i]), Basename(files[|files| - 1]));
    }
  }

  lemma CopiesExtend(files: seq<Path>, dir: Path, before: map<Path, Content>, mid: map<Path, Content>)
    requires files != []
    requires CopiesHold(files[..|files| - 1], dir, before, mid) && files[|files| - 1] in before
    requires forall i :: 0 <= i < |files| - 1 ==> Join(dir, Basename(files[i])) != Join(dir, Basename(files[|files| - 1]))
    ensures CopiesHold(files, dir, before, mid[Join(dir, Basename(files[|files| - 1])) := before[files[|files| - 1]]])
  {
    var init, f := files[..|files| - 1], files[|files| - 1];
    var key := Join(dir, Basename(f));
    var after := mid[key := before[f]];
    forall i | 0 <= i < |files|
      ensures files[i] in before && Join(dir, Basename(files[i])) in after
      ensures after[Join(dir, Basename(files[i]))] == before[files[i]]
    {
      if i < |files| - 1 {
        assert files[i] == init[i];
        assert Join(dir, Basename(files[i])) != key;
      }
    }
  }

  /** One completed copy into an existing directory writes the source's contents at its target. */
  lemma CopyStep(u: Tree, f: Path, dir: Path)
    requires Valid(u) && dir in u.dirs && CopyFile(u, f, dir).outcome.Pass?
    ensures f in u.files
    ensures CopyFile(u, f, dir).tree.files == u.files[Join(dir, Basename(f)) := u.files[f]]
  {
    CopyFileEffect(u, f, dir);
  }

  /**
   * Linking keeps the tree valid and removes nothing. When it completes,
   * each binary's link in `linkDir` stores the same name under `targetDir`;
   * binaries sharing a basename share their link.
   */
  lemma {:induction false} LinkAllEffect(t: Tree, files: seq<Path>, linkDir: Path, targetDir: Path)
    requires Valid(t)
    ensures var r := LinkAll(t, files, linkDir, targetDir);
      && Valid(r.tree) && Grows(t, r.tree)
      && (r.outcome.Pass? ==>
            forall i :: 0 <= i < |files| ==>
              Util.ValidSymlink(r.tree, Join(linkDir, Basename(files[i])), Join(targetDir, Basename(files[i]))))
    decreases |files|
  {
    if files != [] {
      var init, f := files[..|files| - 1], files[|files| - 1];
      LinkAllEffect(t, init, linkDir, targetDir);
      var r0 := LinkAll(t, init, linkDir, targetDir);
      if r0.outcome.Pass? {
        var b := Basename(f);
        var r := Util.SafeLink(r0.tree, Join(linkDir, b), Join(targetDir, b), false);
        Util.LnSEffect(r0.tree, Join(linkDir, b), Join(targetDir, b), false);
        GrowsTransitive(t, r0.tree, r.tree);
        if r.outcome.Pass? {
          LinksPresent(files, init, linkDir, targetDir, r0.tree, r.tree);
        }
      }
    }
  }

  /** The links made before the last binary stay, and the last one's is added. */
  lemma LinksPresent(files: seq<Path>, init: seq<Path>, linkDir: Path, targetDir: Path, u: Tree, v: Tree)
    requires files != [] && init == files[..|files| - 1] && Grows(u, v)
    requires forall i :: 0 <= i < |init| ==>
      Util.ValidSymlink(u, Join(linkDir, Basename(init[i])), Join(targetDir, Basename(init[i])))
    requires Util.ValidSymlink(v, Join(linkDir, Basename(files[|files| - 1])), Join(targetDir, Basename(files[|files| - 1])))
    ensures forall i :: 0 <= i < |files| ==>
      Util.ValidSymlink(v, Join(linkDir, Basename(files[i])), Join(targetDir, Basename(files[i])))
  {
    forall i | 0 <= i < |files|
      ensures Util.ValidSymlink(v, Join(linkDir, Basename(files[i])), Join(targetDir, Basename(files[i])))
    {
      if i < |init| {
        assert init[i] == files[i];
        LinkKept(u, v, Join(linkDir, Basename(files[i])), Join(targetDir, Basename(files[i])));
      } else {
        assert files[i] == files[|files| - 1];
      }
    }
  }

  /** A link with its stored target survives any step that removes nothing. */
  lemma LinkKept(u: Tree, v: Tree, link: Path, target: Path)
    requires Grows(u, v) && Util.ValidSymlink(u, link, target)
    ensures Util.ValidSymlink(v, link, target)
  {
  }

  /**
   * When the three steps of prep_package complete, the staging root holds
   * the whole skeleton, a copy of every binary in <opt>/<project>/bin and a
   * command link for every binary in <bin> that stores the installed path.
   * Skeleton creation comes first because the copies need the binary
   * directory to exist.
   */
  lemma {:induction false} PrepPackageEndState(t: Tree, p: Platform, files: seq<Path>)
    requires Valid(t) && IsSegment(p.project.name) && p.opt != []
    requires PrepRun(t, p, files).outcome.Pass?
    ensures var u := PrepRun(t, p, files).tree;
      && Valid(u) && Grows(t, u)
      && (forall d :: d in SkelDirectories(p) ==> Join(TmpPath(p), d) in u.dirs)
      && OptBinDir(p) in u.dirs
      && (forall i :: 0 <= i < |files| ==> StagedBinary(p, files[i]) in u.files)
      && (forall i :: 0 <= i < |files| ==> Util.ValidSymlink(u, LinkPath(p, files[i]), LinkTarget(p, files[i])))
  {
    var s := SkeletonRun(t, p);
    SkeletonEffect(t, p);
    OptBinListed(p);
    OptBinIsRebased(p);
    var b := BinaryRun(s.tree, p, files);
    CopyAllEffect(s.tree, files, OptBinDir(p));
    LinkAllEffect(b.tree, files, LinkDir(p), InstalledBinDir(p));
    GrowsTransitive(t, s.tree, b.tree);
    GrowsTransitive(t, b.tree, SymlinkRun(b.tree, p, files).tree);
  }

  // ---------------------------------------------------------------------------
  // When the staging steps complete

  /**
   * Copying completes when `dir` is a directory, every binary is a regular
   * file with a non-empty basename, and no directory or link stands at its
   * copy target, which is not the binary itself.
   */
  lemma {:induction false} CopyAllPasses(t: Tree, files: seq<Path>, dir: Path)
    requires Valid(t) && dir in t.dirs && dir != [] && !EndsWithSep(dir)
    requires forall i :: 0 <= i < |files| ==>
      && files[i] in t.files && IsSegment(Basename(files[i]))
      && Join(dir, Basename(files[i])) !in t.dirs && Join(dir, Basename(files[i])) !in t.links
      && Join(dir, Basename(files[i])) != files[i]
    ensures CopyAll(t, files, dir).outcome.Pass?
    decreases |files|
  {
    if files != [] {
      var init, f := files[..|files| - 1], files[|files| - 1];
      forall i | 0 <= i < |init|
        ensures && init[i] in t.files && IsSegment(Basename(init[i]))
                && Join(dir, Basename(init[i])) !in t.dirs && Join(dir, Basename(init[i])) !in t.links
                && Join(dir, Basename(init[i])) != init[i]
      {
        assert init[i] == files[i];
      }
      CopyAllPasses(t, init, dir);
      CopyAllEffect(t, init, dir);
      var r0 := CopyAll(t, init, dir);
      assert CopyAll(t, files, dir) == CopyFile(r0.tree, f, dir);
      ParentOfJoin(dir, Basename(f));
      CopyFilePasses(r0.tree, f, dir);
    }
  }

  /** The links `files` name in `linkDir`. */
  function LinkSet(files: seq<Path>, linkDir: Path): (r: set<Path>)
    ensures forall i :: 0 <= i < |files| ==> Join(linkDir, Basename(files[i])) in r
  {
    set i | 0 <= i < |files| :: Join(linkDir, Basename(files[i]))
  }

  /**
   * Linking completes when nothing blocks `linkDir` and nothing stands at
   * any of the links, whatever the binaries' directories; binaries sharing
   * a basename find their link already right. It changes no file, adds no
   * directory outside the lineage of `linkDir`, and adds only the binaries' links.
   */
  lemma {:induction false} LinkAllPasses(t: Tree, files: seq<Path>, linkDir: Path, targetDir: Path)
    requires Valid(t) && linkDir != [] && !EndsWithSep(linkDir) && !Blocked(t, linkDir)
    requires forall i :: 0 <= i < |files| ==>
      && IsSegment(Basename(files[i]))
      && Join(linkDir, Basename(files[i])) !in t.dirs
      && Join(linkDir, Basename(files[i])) !in t.files
      && Join(linkDir, Basename(files[i])) !in t.links
    ensures var r := LinkAll(t, files, linkDir, targetDir);
      && r.outcome.Pass?
      && r.tree.files == t.files
      && r.tree.dirs <= t.dirs + Lineage(linkDir)
      && (forall l :: l in r.tree.links ==> l in t.links || l in LinkSet(files, linkDir))
    decreases |files|
  {
    if files != [] {
      var init, f := files[..|files| - 1], files[|files| - 1];
      forall i | 0 <= i < |init|
        ensures && IsSegment(Basename(init[i]))
                && Join(linkDir, Basename(init[i])) !in t.dirs
                && Join(linkDir, Basename(init[i])) !in t.files
                && Join(linkDir, Basename(init[i])) !in t.links
      {
        assert init[i] == files[i];
      }
      LinkAllPasses(t, init, linkDir, targetDir);
      LinkAllEffect(t, init, linkDir, targetDir);
      var r0 := LinkAll(t, init, linkDir, targetDir);
      var b := Basename(f);
      var link, target := Join(linkDir, b), Join(targetDir, b);
      assert LinkAll(t, files, linkDir, targetDir) == Util.SafeLink(r0.tree, link, target, false);
      ParentOfJoin(linkDir, b);
      LinkStepPasses(t, r0.tree, init, linkDir, targetDir, b);
      Util.LnSShape(r0.tree, link, target);
      LinkSetGrows(files, init, linkDir);
    }
  }

  /** The next link of the loop can be made, given what the earlier turns left. */
  lemma LinkStepPasses(t: Tree, u: Tree, init: seq<Path>, linkDir: Path, targetDir: Path, b: Path)
    requires Valid(u) && linkDir != [] && !EndsWithSep(linkDir) && IsSegment(b) && !Blocked(t, linkDir)
    requires u.files == t.files && u.dirs <= t.dirs + Lineage(linkDir)
    requires forall l :: l in u.links ==> l in t.links || l in LinkSet(init, linkDir)
    requires forall i :: 0 <= i < |init| ==>
      IsSegment(Basename(init[i])) &&
      Util.ValidSymlink(u, Join(linkDir, Basename(init[i])), Join(targetDir, Basename(init[i])))
    requires Join(linkDir, b) !in t.dirs && Join(linkDir, b) !in t.files && Join(linkDir, b) !in t.links
    ensures Util.SafeLink(u, Join(linkDir, b), Join(targetDir, b), false).outcome.Pass?
  {
    var link := Join(linkDir, b);
    ParentOfJoin(linkDir, b);
    Util.LnSPasses(u, link, Join(targetDir, b), false);
    if link in u.links {
      EarlierLink(u, init, linkDir, targetDir, b);
    } else {
      assert link !in Lineage(linkDir);
      LinkDirFree(t, u, init, linkDir);
    }
  }

  /** A link already made for an earlier binary with the same basename is already right. */
  lemma EarlierLink(u: Tree, init: seq<Path>, linkDir: Path, targetDir: Path, b: Path)
    requires linkDir != [] && IsSegment(b)
    requires Join(linkDir, b) in LinkSet(init, linkDir)
    requires forall i :: 0 <= i < |init| ==>
      IsSegment(Basename(init[i])) &&
      Util.ValidSymlink(u, Join(linkDir, Basename(init[i])), Join(targetDir, Basename(init[i])))
    ensures Util.ValidSymlink(u, Join(linkDir, b), Join(targetDir, b))
  {
    var i :| 0 <= i < |init| && Join(linkDir, b) == Join(linkDir, Basename(init[i]));
    if Basename(init[i]) != b {
      JoinInjective(linkDir, Basename(init[i]), b);
    }
  }

  /** The links made so far lie below `linkDir`, so they do not block it. */
  lemma LinkDirFree(t: Tree, u: Tree, init: seq<Path>, linkDir: Path)
    requires linkDir != [] && !EndsWithSep(linkDir) && !Blocked(t, linkDir)
    requires forall i :: 0 <= i < |init| ==> IsSegment(Basename(init[i]))
    requires u.files == t.files
    requires forall l :: l in u.links ==> l in t.links || l in LinkSet(init, linkDir)
    ensures !Blocked(u, linkDir)
  {
    forall q | q in Lineage(linkDir) ensures q !in u.files && q !in u.links {
      if q in u.links && q !in t.links {
        var i :| 0 <= i < |init| && q == Join(linkDir, Basename(init[i]));
        ParentOfJoin(linkDir, Basename(init[i]));
      }
    }
  }

  lemma LinkSetGrows(files: seq<Path>, init: seq<Path>, linkDir: Path)
    requires files != [] && init == files[..|files| - 1]
    ensures forall l :: l in LinkSet(init, linkDir) ==> l in LinkSet(files, linkDir)
  {
    forall l | l in LinkSet(init, linkDir) ensures l in LinkSet(files, linkDir) {
      var i :| 0 <= i < |init| && l == Join(linkDir, Basename(init[i]));
      assert files[i] == init[i];
    }
  }

  /** `q` is one of the directories create_skeleton makes: a rebased skeleton entry or one above it. */
  ghost predicate InSkeleton(p: Platform, q: Path) {
    exists d :: d in SkelDirectories(p) && q in Lineage(Join(TmpPath(p), d))
  }

  /** create_skeleton adds no directory but the skeleton's. */
  lemma SkeletonOnly(t: Tree, p: Platform)
    ensures forall q :: q in SkeletonRun(t, p).tree.dirs ==> q in t.dirs || InSkeleton(p, q)
  {
    var ds, skel := Rebased(p), SkelDirectories(p);
    MakeDirsAllOnly(t, ds);
    forall q | q in SkeletonRun(t, p).tree.dirs && q !in t.dirs ensures InSkeleton(p, q) {
      var i :| 0 <= i < |ds| && q in Lineage(ds[i]);
      assert ds[i] == Join(TmpPath(p), skel[i]) && skel[i] in skel;
    }
  }

  /**
   * prep_package's first three steps complete on a valid tree when:
   * nothing blocks the rebased skeleton; every binary is a regular file with
   * a non-empty basename; no directory or link stands at a binary's staged
   * copy, which is not the binary itself nor a skeleton directory; and
   * nothing stands at a binary's command link, which is not a skeleton
   * directory nor any binary's staged copy.
   */
  lemma {:induction false} PrepRunPasses(t: Tree, p: Platform, files: seq<Path>)
    requires Valid(t) && IsSegment(p.project.name) && p.opt != []
    requires p.bin != [] && !EndsWithSep(p.bin)
    requires forall d :: d in SkelDirectories(p) ==> !Blocked(t, Join(TmpPath(p), d))
    requires forall i :: 0 <= i < |files| ==>
      && files[i] in t.files && Basename(files[i]) != []
      && StagedBinary(p, files[i]) != files[i]
      && StagedBinary(p, files[i]) !in t.dirs && StagedBinary(p, files[i]) !in t.links
      && !InSkeleton(p, StagedBinary(p, files[i]))
    requires forall i :: 0 <= i < |files| ==>
      && LinkPath(p, files[i]) !in t.dirs && LinkPath(p, files[i]) !in t.files
      && LinkPath(p, files[i]) !in t.links
      && !InSkeleton(p, LinkPath(p, files[i]))
      && NotStaged(files, OptBinDir(p), LinkPath(p, files[i]))
    ensures PrepRun(t, p, files).outcome.Pass?
  {
    var s := SkeletonRun(t, p);
    SkeletonEffect(t, p);
    SkeletonOnly(t, p);
    OptBinListed(p);
    OptBinIsRebased(p);
    var dir := OptBinDir(p);
    assert dir in s.tree.dirs;
    JoinKeepsEnd(Join(Join(TmpPath(p), p.opt), p.project.name), "bin");
    CopyAllPasses(s.tree, files, dir);
    var b := CopyAll(s.tree, files, dir);
    CopyAllEffect(s.tree, files, dir);
    CopyAllKeeps(s.tree, files, dir);
    LinkDirReady(t, s.tree, b.tree, p);
    forall i | 0 <= i < |files|
      ensures && IsSegment(Basename(files[i]))
              && Join(LinkDir(p), Basename(files[i])) !in b.tree.dirs
              && Join(LinkDir(p), Basename(files[i])) !in b.tree.files
              && Join(LinkDir(p), Basename(files[i])) !in b.tree.links
    {
      assert LinkPath(p, files[i]) == Join(LinkDir(p), Basename(files[i]));
    }
    LinkAllPasses(b.tree, files, LinkDir(p), InstalledBinDir(p));
  }

  /** After the skeleton and the copies, the staged link directory exists and nothing blocks it. */
  lemma LinkDirReady(t: Tree, s: Tree, b: Tree, p: Platform)
    requires p.bin != [] && !EndsWithSep(p.bin)
    requires Valid(b) && s.dirs == b.dirs
    requires forall d :: d in SkelDirectories(p) ==> Lineage(Join(TmpPath(p), d)) <= s.dirs
    ensures LinkDir(p) != [] && !EndsWithSep(LinkDir(p)) && !Blocked(b, LinkDir(p))
  {
    JoinKeepsEnd(TmpPath(p), p.bin);
    LiteralEntries(p);
    SkelDirectoriesSpec(p);
    assert Lineage(LinkDir(p)) <= b.dirs;
  }

  // ---------------------------------------------------------------------------
  // The staging steps on the disk

  /** One more turn of the copy loop. */
  lemma CopyAllSnoc(t: Tree, files: seq<Path>, i: nat, dir: Path)
    requires i < |files| && CopyAll(t, files[..i], dir).outcome.Pass?
    ensures CopyAll(t, files[..i + 1], dir) == CopyFile(CopyAll(t, files[..i], dir).tree, files[i], dir)
  {
    assert files[..i + 1][..i] == files[..i];
  }

  /** One more turn of the link loop. */
  lemma LinkAllSnoc(t: Tree, files: seq<Path>, i: nat, linkDir: Path, targetDir: Path)
    requires i < |files| && LinkAll(t, files[..i], linkDir, targetDir).outcome.Pass?
    ensures var b := Basename(files[i]);
      LinkAll(t, files[..i + 1], linkDir, targetDir)
      == Util.SafeLink(LinkAll(t, files[..i], linkDir, targetDir).tree, Join(linkDir, b), Join(targetDir, b), false)
  {
    assert files[..i + 1][..i] == files[..i];
  }

  /** create_skeleton */
  method CreateSkeleton(disk: Disk, p: Platform) returns (r: Outcome<FsError>)
    modifies disk
    ensures Run(disk.State(), r) == SkeletonRun(old(disk.State()), p)
  {
    r := disk.MkdirPList(Rebased(p));
  }

  /** package_binary, with the globbed binary list passed in */
  method PackageBinary(disk: Disk, p: Platform, files: seq<Path>) returns (r: Outcome<FsError>)
    modifies disk
    ensures Run(disk.State(), r) == BinaryRun(old(disk.State()), p, files)
  {
    ghost var t0 := disk.State();
    var optBin := OptBinDir(p);
    r := Pass;
    var i := 0;
    while i < |files|
      invariant 0 <= i <= |files|
      invariant CopyAll(t0, files[..i], optBin) == Run(disk.State(), Pass) && r == Pass
    {
      CopyAllSnoc(t0, files, i, optBin);
      r := disk.Cp(files[i], optBin);
      if r.Fail? {
        CopyAllFailStays(t0, files, optBin, i + 1);
        return;
      }
      i := i + 1;
    }
    assert files[..i] == files;
  }

  /** create_symlink, with the globbed binary list passed in */
  method CreateSymlink(disk: Disk, p: Platform, files: seq<Path>) returns (r: Outcome<FsError>)
    modifies disk
    ensures Run(disk.State(), r) == SymlinkRun(old(disk.State()), p, files)
  {
    ghost var t0 := disk.State();
    ghost var linkDir, targetDir := LinkDir(p), InstalledBinDir(p);
    r := Pass;
    var i := 0;
    while i < |files|
      invariant 0 <= i <= |files|
      invariant LinkAll(t0, files[..i], linkDir, targetDir) == Run(disk.State(), Pass) && r == Pass
    {
      LinkAllSnoc(t0, files, i, linkDir, targetDir);
      var filename := Basename(files[i]);
      var link := Join(Join(TmpPath(p), p.bin), filename);
      var target := Join(Join(Join(p.opt, p.project.name), "bin"), filename);
      r := Util.LnS(disk, link, target, false);
      if r.Fail? {
        LinkAllFailStays(t0, files, linkDir, targetDir, i + 1);
        return;
      }
      i := i + 1;
    }
    assert files[..i] == files;
  }

  /**
   * prep_package up to create_symlink; package_config, package_example,
   * package_service and generate_man are not part of this model.
   */
  method PrepPackage(disk: Disk, p: Platform, files: seq<Path>) returns (r: Outcome<FsError>)
    modifies disk
    ensures Run(disk.State(), r) == PrepRun(old(disk.State()), p, files)
  {
    r := CreateSkeleton(disk, p);
    if r.Fail? {
      return;
    }
    r := PackageBinary(disk, p, files);
    if r.Fail? {
      return;
    }
    r := CreateSymlink(disk, p, files);
  }
}
