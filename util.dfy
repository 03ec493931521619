/**
 * Packaging::Util: directory creation that skips existing directories, a
 * symlink call that is a no-op when the link is already right and creates
 * its parent first, and version parsing that repairs malformed git tags.
 */
module Util {

  import opened Wrappers
  import opened Paths
  import opened FileSystem
  import SemVer

  // ---------------------------------------------------------------------------
  // Directories and links

  /** valid_symlink?(link, target): `link` is a link whose stored text is `target`. */
  predicate ValidSymlink(t: Tree, link: Path, target: Path) {
    link in t.links && t.links[link] == target
  }

  /** valid_symlink? asked of the disk: File.symlink? and then File.readlink. */
  function IsValidSymlink(disk: Disk, link: Path, target: Path): (b: bool)
    reads disk
    ensures b <==> ValidSymlink(disk.State(), link, target)
  {
    disk.IsSymlink(link) && disk.ReadLink(link) == target
  }

  /**
   * The stored text must equal `target` exactly, and what `target` names is
   * never consulted: the answer is the same whatever directories and files exist.
   */
  lemma ValidSymlinkExact(t: Tree, link: Path, target: Path, other: Path, dirs: set<Path>, files: map<Path, Content>)
    requires ValidSymlink(t, link, target)
    ensures ValidSymlink(t, link, other) <==> other == target
    ensures ValidSymlink(Tree(dirs, files, t.links), link, target)
  {
  }

  /** One turn of mkdir_p's loop: FileUtils.mkdir_p unless `d` is a directory already. */
  function EnsureDir(t: Tree, d: Path): Run {
    if d in t.dirs then Run(t, Pass) else MakeDirs(t, d)
  }

  /** mkdir_p(*dirs): each path in turn, stopping at the first that raises. */
  function MkdirPAll(t: Tree, ds: seq<Path>): Run
    decreases |ds|
  {
    if ds == [] then Run(t, Pass)
    else
      var r := MkdirPAll(t, ds[..|ds| - 1]);
      if r.outcome.Fail? then r else EnsureDir(r.tree, ds[|ds| - 1])
  }

  /** ln_s(link, target, force: force) */
  function SafeLink(t: Tree, link: Path, target: Path, force: bool): Run {
    if ValidSymlink(t, link, target) then Run(t, Pass)
    else
      var r := MakeDirs(t, Parent(link));
      if r.outcome.Fail? then r else MakeLink(r.tree, target, link, force)
  }

  /** On a valid tree the directory guard in mkdir_p's loop changes nothing. */
  lemma {:induction false} GuardRedundant(t: Tree, ds: seq<Path>)
    requires Valid(t)
    ensures MkdirPAll(t, ds) == MakeDirsAll(t, ds)
    decreases |ds|
  {
    if ds != [] {
      var init := ds[..|ds| - 1];
      GuardRedundant(t, init);
      MakeDirsAllEffect(t, init);
      var r := MakeDirsAll(t, init);
      if r.outcome.Pass? && ds[|ds| - 1] in r.tree.dirs {
        MakeDirsExisting(r.tree, ds[|ds| - 1]);
      }
    }
  }

  /**
   * After mkdir_p every listed path and all its ancestors are directories;
   * directories already there stay, no file or link is touched, and nothing
   * is added but the listed paths and their ancestors. It raises exactly
   * when a file or a link stands on the way to one of the paths.
   */
  lemma MkdirPEffect(t: Tree, ds: seq<Path>)
    requires Valid(t)
    ensures var r := MkdirPAll(t, ds);
      && Valid(r.tree)
      && t.dirs <= r.tree.dirs
      && r.tree.files == t.files && r.tree.links == t.links
      && (r.outcome.Pass? <==> forall i :: 0 <= i < |ds| ==> !Blocked(t, ds[i]))
      && (r.outcome.Pass? ==> forall i :: 0 <= i < |ds| ==> Lineage(ds[i]) <= r.tree.dirs)
      && (forall q :: q in r.tree.dirs ==> q in t.dirs || exists i :: 0 <= i < |ds| && q in Lineage(ds[i]))
  {
    GuardRedundant(t, ds);
    MakeDirsAllEffect(t, ds);
  }

  /** Calling mkdir_p a second time with the same paths changes nothing. */
  lemma {:induction false} MkdirPIdempotent(t: Tree, ds: seq<Path>)
    requires Valid(t) && MkdirPAll(t, ds).outcome.Pass?
    ensures var u := MkdirPAll(t, ds).tree; MkdirPAll(u, ds) == Run(u, Pass)
  {
    var u := MkdirPAll(t, ds).tree;
    MkdirPEffect(t, ds);
    AllPresentIsNoOp(u, ds);
  }

  lemma {:induction false} AllPresentIsNoOp(u: Tree, ds: seq<Path>)
    requires forall i :: 0 <= i < |ds| ==> ds[i] in u.dirs
    ensures MkdirPAll(u, ds) == Run(u, Pass)
    decreases |ds|
  {
    if ds != [] {
      AllPresentIsNoOp(u, ds[..|ds| - 1]);
    }
  }

  /**
   * ln_s keeps the tree valid. On success the parent of `link` is a
   * directory and `link` is a valid symlink to `target`; without force it
   * removes nothing from the tree.
   */
  lemma {:induction false} LnSEffect(t: Tree, link: Path, target: Path, force: bool)
    requires Valid(t)
    ensures var r := SafeLink(t, link, target, force);
      && Valid(r.tree)
      && t.dirs <= r.tree.dirs
      && (!force ==> Grows(t, r.tree))
      && (r.outcome.Pass? ==> Parent(link) in r.tree.dirs && ValidSymlink(r.tree, link, target))
  {
    if ValidSymlink(t, link, target) {
      ParentOfEntry(t, link);
    } else {
      MakeDirsEffect(t, Parent(link));
      var r := MakeDirs(t, Parent(link));
      if r.outcome.Pass? {
        MakeLinkEffect(r.tree, target, link, force);
        if !force {
          GrowsTransitive(t, r.tree, MakeLink(r.tree, target, link, force).tree);
        }
      }
    }
  }

  /** A second ln_s with the same link and target changes nothing, whatever its force flag. */
  lemma LnSIdempotent(t: Tree, link: Path, target: Path, force: bool, force2: bool)
    requires Valid(t) && SafeLink(t, link, target, force).outcome.Pass?
    ensures var u := SafeLink(t, link, target, force).tree;
      SafeLink(u, link, target, force2) == Run(u, Pass)
  {
    LnSEffect(t, link, target, force);
  }

  /**
   * Without force, an entry at `link` that is not already the right link
   * makes ln_s raise and leaves the tree as it was.
   */
  lemma {:induction false} LnSCollision(t: Tree, link: Path, target: Path)
    requires Valid(t)
    requires link in t.dirs || link in t.files || (link in t.links && t.links[link] != target)
    ensures SafeLink(t, link, target, false).outcome.Fail?
    ensures SafeLink(t, link, target, false).tree == t
  {
    ParentOfEntry(t, link);
    MakeDirsExisting(t, Parent(link));
  }

  /** With force, a file or another link at `link` is replaced by the link. */
  lemma {:induction false} LnSForce(t: Tree, link: Path, target: Path)
    requires Valid(t)
    requires link in t.files || (link in t.links && t.links[link] != target)
    ensures var r := SafeLink(t, link, target, true);
      && r.outcome.Pass?
      && r.tree.dirs == t.dirs
      && r.tree.files == t.files - {link}
      && r.tree.links == t.links[link := target]
  {
    ParentOfEntry(t, link);
    MakeDirsExisting(t, Parent(link));
  }

  /**
   * ln_s completes exactly when the link is already right, or when nothing
   * blocks its parent, no directory stands at `link`, and either force is
   * given or nothing at all stands there.
   */
  lemma {:induction false} LnSPasses(t: Tree, link: Path, target: Path, force: bool)
    requires Valid(t)
    ensures SafeLink(t, link, target, force).outcome.Pass? <==>
      || ValidSymlink(t, link, target)
      || (&& !Blocked(t, Parent(link)) && link !in t.dirs
          && (force || (link !in t.files && link !in t.links)))
  {
    if !ValidSymlink(t, link, target) {
      MakeDirsEffect(t, Parent(link));
      var r := MakeDirs(t, Parent(link));
      if r.outcome.Pass? {
        if link !in t.dirs {
          NotInParentLineage(link);
          assert link !in r.tree.dirs;
        }
        MakeLinkPasses(r.tree, target, link, force);
      }
    }
  }

  /**
   * Without force, ln_s changes no file, adds no directory outside the
   * lineage of the link's parent, and adds no link other than `link`.
   */
  lemma LnSShape(t: Tree, link: Path, target: Path)
    ensures var r := SafeLink(t, link, target, false);
      && r.tree.files == t.files
      && r.tree.dirs <= t.dirs + Lineage(Parent(link))
      && (forall l :: l in r.tree.links ==> l in t.links || l == link)
  {
    if !ValidSymlink(t, link, target) {
      var r := MakeDirs(t, Parent(link));
      MakeDirsShape(t, Parent(link));
      if r.outcome.Pass? {
        MakeLinkShape(r.tree, target, link);
      }
    }
  }

  /** mkdir_p(*dirs) */
  method MkdirP(disk: Disk, ds: seq<Path>) returns (r: Outcome<FsError>)
    modifies disk
    ensures Run(disk.State(), r) == MkdirPAll(old(disk.State()), ds)
  {
    ghost var t0 := disk.State();
    r := Pass;
    var i := 0;
    while i < |ds|
      invariant 0 <= i <= |ds|
      invariant MkdirPAll(t0, ds[..i]) == Run(disk.State(), Pass) && r == Pass
    {
      assert ds[..i + 1][..i] == ds[..i];
      if !disk.IsDirectory(ds[i]) {
        r := disk.MkdirP(ds[i]);
        if r.Fail? {
          assert MkdirPAll(t0, ds[..i + 1]) == Run(disk.State(), r);
          MkdirPFailStays(t0, ds, i + 1);
          return;
        }
      }
      i := i + 1;
    }
    assert ds[..i] == ds;
  }

  lemma {:induction false} MkdirPFailStays(t: Tree, ds: seq<Path>, n: nat)
    requires 0 < n <= |ds| && MkdirPAll(t, ds[..n]).outcome.Fail?
    ensures MkdirPAll(t, ds) == MkdirPAll(t, ds[..n])
    decreases |ds| - n
  {
    if n < |ds| {
      assert ds[..n + 1][..n] == ds[..n];
      MkdirPFailStays(t, ds, n + 1);
    } else {
      assert ds[..n] == ds;
    }
  }

  /** ln_s(link, target, force: force) */
  method LnS(disk: Disk, link: Path, target: Path, force: bool) returns (r: Outcome<FsError>)
    modifies disk
    ensures Run(disk.State(), r) == SafeLink(old(disk.State()), link, target, force)
  {
    if IsValidSymlink(disk, link, target) {
      return Pass;
    }
    r := disk.MkdirP(Parent(link));
    if r.Pass? {
      r := disk.LnS(target, link, force);
    }
  }

  // ---------------------------------------------------------------------------
  // Version tags

  /** The first position at or after `i` that does not hold a digit. */
  function DigitsEnd(s: string, i: nat): (e: nat)
    requires i <= |s|
    ensures i <= e <= |s|
    ensures forall k :: i <= k < e ==> SemVer.IsDigit(s[k])
    ensures e == |s| || !SemVer.IsDigit(s[e])
    decreases |s| - i
  {
    if i == |s| || !SemVer.IsDigit(s[i]) then i else DigitsEnd(s, i + 1)
  }

  // A text that the pattern d*.d*.d* (digit runs, possibly empty) matches as a whole:
  // two dots, digits everywhere else.
  ghost predicate InPattern(m: string) {
    exists p, q :: 0 <= p < q < |m| && m[p] == '.' && m[q] == '.' && DigitsBut(m, p, q)
  }

  ghost predicate DigitsBut(m: string, p: nat, q: nat) {
    forall k :: 0 <= k < |m| && k != p && k != q ==> SemVer.IsDigit(m[k])
  }

  // Where the greedy match of d*.d*.d* that starts at `i` ends, if one starts there.
  function MatchEndAt(s: string, i: nat): Option<nat>
    requires i <= |s|
  {
    var a := DigitsEnd(s, i);
    if a < |s| && s[a] == '.' then
      var b := DigitsEnd(s, a + 1);
      if b < |s| && s[b] == '.' then Some(DigitsEnd(s, b + 1)) else None
    else None
  }

  /** The first start position at or after `i` where the pattern matches, with the end of that match. */
  function LeftmostMatch(s: string, i: nat): Option<(nat, nat)>
    requires i <= |s|
    decreases |s| - i
  {
    match MatchEndAt(s, i)
    case Some(e) => Some((i, e))
    case None => if i == |s| then None else LeftmostMatch(s, i + 1)
  }

  // The text of the leftmost match of d*.d*.d*; None where Ruby's match is nil.
  function CleanVersion(s: string): Option<string> {
    match LeftmostMatch(s, 0)
    case Some((i, e)) => if i <= e <= |s| then Some(s[i..e]) else None
    case None => None
  }

  lemma DigitsEndIs(s: string, i: nat, j: nat)
    requires i <= j <= |s|
    requires forall k :: i <= k < j ==> SemVer.IsDigit(s[k])
    requires j == |s| || !SemVer.IsDigit(s[j])
    ensures DigitsEnd(s, i) == j
  {
  }

  /** Any pattern text at `i` forces the greedy match there, which reaches at least as far. */
  lemma {:induction false} PatternForcesMatch(s: string, i: nat, e: nat)
    requires i <= e <= |s| && InPattern(s[i..e])
    ensures MatchEndAt(s, i).Some? && MatchEndAt(s, i).value >= e
    ensures e == |s| || !SemVer.IsDigit(s[e]) ==> MatchEndAt(s, i) == Some(e)
  {
    var m := s[i..e];
    var p, q :| 0 <= p < q < |m| && m[p] == '.' && m[q] == '.' && DigitsBut(m, p, q);
    DigitRun(s, i, e, p, q, 0, p);
    DigitRun(s, i, e, p, q, p + 1, q);
    DigitRun(s, i, e, p, q, q + 1, |m|);
    assert s[i + p] == m[p] && s[i + q] == m[q];
    MatchShape(s, i, i + p, i + q, e);
  }

  /** The greedy match at `i` over the dots at `p` and `q`, with digits up to `e` after the second. */
  lemma MatchShape(s: string, i: nat, p: nat, q: nat, e: nat)
    requires i <= p < q < e <= |s| && s[p] == '.' && s[q] == '.'
    requires forall k :: i <= k < p ==> SemVer.IsDigit(s[k])
    requires forall k :: p < k < q ==> SemVer.IsDigit(s[k])
    requires forall k :: q < k < e ==> SemVer.IsDigit(s[k])
    ensures MatchEndAt(s, i) == Some(DigitsEnd(s, q + 1))
    ensures DigitsEnd(s, q + 1) >= e
    ensures e == |s| || !SemVer.IsDigit(s[e]) ==> DigitsEnd(s, q + 1) == e
  {
    DigitsEndIs(s, i, p);
    DigitsEndIs(s, p + 1, q);
    if e == |s| || !SemVer.IsDigit(s[e]) {
      DigitsEndIs(s, q + 1, e);
    }
  }

  /** Positions `lo` to `hi` of a pattern text at `i`, away from its dots, hold digits of `s`. */
  lemma DigitRun(s: string, i: nat, e: nat, p: nat, q: nat, lo: nat, hi: nat)
    requires i <= e <= |s| && p < q < e - i && DigitsBut(s[i..e], p, q)
    requires lo <= hi <= e - i && (hi <= p || (p < lo && hi <= q) || q < lo)
    ensures forall k :: i + lo <= k < i + hi ==> SemVer.IsDigit(s[k])
  {
    forall k | i + lo <= k < i + hi ensures SemVer.IsDigit(s[k]) {
      assert s[i..e][k - i] == s[k];
    }
  }

  /**
   * A match found at `i` is a pattern text, and no longer text from `i` is
   * one: the match is greedy. Where none is found, no text from `i` matches.
   */
  lemma {:induction false} MatchEndAtSpec(s: string, i: nat)
    requires i <= |s|
    ensures MatchEndAt(s, i).Some? ==>
      var e := MatchEndAt(s, i).value;
      && i <= e <= |s| && InPattern(s[i..e])
      && forall e' :: e < e' <= |s| ==> !InPattern(s[i..e'])
    ensures MatchEndAt(s, i).None? ==> forall e :: i <= e <= |s| ==> !InPattern(s[i..e])
  {
    if MatchEndAt(s, i).Some? {
      var a := DigitsEnd(s, i);
      var b := DigitsEnd(s, a + 1);
      var e := DigitsEnd(s, b + 1);
      var m := s[i..e];
      assert m[a - i] == '.' && m[b - i] == '.';
      assert DigitsBut(m, a - i, b - i) by {
        forall k | 0 <= k < |m| && k != a - i && k != b - i ensures SemVer.IsDigit(m[k]) {
          assert m[k] == s[i + k];
        }
      }
      forall e' | e < e' <= |s| ensures !InPattern(s[i..e']) {
        if InPattern(s[i..e']) {
          PatternForcesMatch(s, i, e');
        }
      }
    } else {
      forall e | i <= e <= |s| ensures !InPattern(s[i..e]) {
        if InPattern(s[i..e]) {
          PatternForcesMatch(s, i, e);
        }
      }
    }
  }

  lemma {:induction false} LeftmostMatchSpec(s: string, i: nat)
    requires i <= |s|
    ensures LeftmostMatch(s, i).Some? ==>
      var (j, e) := LeftmostMatch(s, i).value;
      && i <= j <= |s| && MatchEndAt(s, j) == Some(e)
      && forall k :: i <= k < j ==> MatchEndAt(s, k).None?
    ensures LeftmostMatch(s, i).None? ==> forall k :: i <= k <= |s| ==> MatchEndAt(s, k).None?
    decreases |s| - i
  {
    if MatchEndAt(s, i).None? && i < |s| {
      LeftmostMatchSpec(s, i + 1);
    }
  }

  /**
   * The extraction is Ruby's leftmost, greedy match: the text it returns is
   * a pattern text of `s`, no pattern text starts further left, and none
   * starting at the same place is longer. When it finds nothing, no part of
   * `s` is a pattern text.
   */
  lemma {:induction false} CleanVersionSpec(s: string)
    ensures CleanVersion(s).Some? ==>
      exists i, e ::
        && 0 <= i <= e <= |s| && CleanVersion(s).value == s[i..e] && InPattern(s[i..e])
        && (forall i', e' :: 0 <= i' < i && i' <= e' <= |s| ==> !InPattern(s[i'..e']))
        && (forall e' :: e < e' <= |s| ==> !InPattern(s[i..e']))
    ensures CleanVersion(s).None? ==> forall i, e :: 0 <= i <= e <= |s| ==> !InPattern(s[i..e])
  {
    LeftmostMatchSpec(s, 0);
    match LeftmostMatch(s, 0)
    case Some((i, e)) =>
      MatchEndAtSpec(s, i);
      forall i', e' | 0 <= i' < i && i' <= e' <= |s| ensures !InPattern(s[i'..e']) {
        MatchEndAtSpec(s, i');
      }
    case None =>
      forall i, e | 0 <= i <= e <= |s| ensures !InPattern(s[i..e]) {
        MatchEndAtSpec(s, i);
      }
  }

  datatype SemverError =
    | NoMatch(version: string)   // the tag holds no pattern text: nil[0] raises
    | Malformed(text: string)    // the extracted text is refused by the strict parser

  /** semver(version): the strict parse, else the strict parse of the extracted text. */
  function Semver(version: string): Result<SemVer.Version, SemverError> {
    match SemVer.Parse(version)
    case Some(v) => Ok(v)
    case None =>
      match CleanVersion(version)
      case None => Err(NoMatch(version))
      case Some(m) =>
        match SemVer.Parse(m)
        case Some(v) => Ok(v)
        case None => Err(Malformed(m))
  }

  /**
   * The strict parser on a pattern text: it succeeds exactly when the three
   * digit runs are numerals (non-empty, no leading zero), and then gives
   * their values with no pre-release or build identifiers.
   */
  lemma PatternParse(m: string, p: nat, q: nat)
    requires p < q < |m| && m[p] == '.' && m[q] == '.' && DigitsBut(m, p, q)
    ensures SemVer.Parse(m) ==
      if SemVer.IsNumeral(m[..p]) && SemVer.IsNumeral(m[p + 1..q]) && SemVer.IsNumeral(m[q + 1..])
      then Some(SemVer.Version(SemVer.DecToNat(m[..p]), SemVer.DecToNat(m[p + 1..q]), SemVer.DecToNat(m[q + 1..]), [], []))
      else None
  {
    var a, b, c := m[..p], m[p + 1..q], m[q + 1..];
    assert '+' !in m && '-' !in m by {
      forall k | 0 <= k < |m| ensures m[k] != '+' && m[k] != '-' {
        if k != p && k != q {
          assert SemVer.IsDigit(m[k]);
        }
      }
    }
    assert SemVer.Cut(m, '+') == (m, None);
    assert SemVer.Cut(m, '-') == (m, None);
    assert '.' !in a && '.' !in b && '.' !in c by {
      forall k | 0 <= k < |m| && k != p && k != q ensures m[k] != '.' {
        assert SemVer.IsDigit(m[k]);
      }
      assert forall k :: 0 <= k < |a| ==> a[k] == m[k];
      assert forall k :: 0 <= k < |b| ==> b[k] == m[p + 1 + k];
      assert forall k :: 0 <= k < |c| ==> c[k] == m[q + 1 + k];
    }
    SemVer.JoinWith3(a, b, c, '.');
    assert m == a + ['.'] + b + ['.'] + c;
    SemVer.SplitOfJoin([a, b, c], '.');
    assert SemVer.SplitOn(m, '.') == [a, b, c];
  }

  /**
   * A tag the strict parser accepts is returned as the strict parser reads
   * it: every well-formed version comes back from its own text unchanged.
   */
  lemma SemverOfWellFormed(v: SemVer.Version)
    requires SemVer.WellFormed(v)
    ensures Semver(SemVer.Format(v)) == Ok(v)
  {
    SemVer.ParseFormat(v);
  }

  /**
   * Whatever semver returns is a well-formed version whose canonical text
   * occurs in the tag it was given: the fallback only ever cuts a piece out
   * of the tag, it never invents digits.
   */
  lemma {:induction false} SemverInTag(version: string)
    requires Semver(version).Ok?
    ensures var v := Semver(version).value;
      && SemVer.WellFormed(v)
      && exists i, j :: 0 <= i <= j <= |version| && version[i..j] == SemVer.Format(v)
  {
    var v := Semver(version).value;
    if SemVer.Parse(version).Some? {
      SemVer.FormatParse(version);
      assert version[0..|version|] == SemVer.Format(v);
    } else {
      CleanVersionSpec(version);
      var m := CleanVersion(version).value;
      assert SemVer.Parse(m) == Some(v);
      SemVer.FormatParse(m);
      var i, e :| 0 <= i <= e <= |version| && m == version[i..e];
      assert version[i..e] == SemVer.Format(v);
    }
  }

  /**
   * When the strict parse fails and the fallback succeeds, the version has
   * no pre-release and no build identifiers: "v1.2.3-rc1" becomes 1.2.3.
   */
  lemma {:induction false} SemverFallbackPlain(version: string)
    requires SemVer.Parse(version).None? && Semver(version).Ok?
    ensures Semver(version).value.pre == [] && Semver(version).value.build == []
  {
    CleanVersionSpec(version);
    var m := CleanVersion(version).value;
    var i, e :| 0 <= i <= e <= |version| && m == version[i..e] && InPattern(version[i..e]);
    var p, q :| 0 <= p < q < |m| && m[p] == '.' && m[q] == '.' && DigitsBut(m, p, q);
    PatternParse(m, p, q);
  }

  /** No two positions of `s` hold a dot. */
  predicate AtMostOneDot(s: string) {
    forall i, j :: 0 <= i < j < |s| ==> !(s[i] == '.' && s[j] == '.')
  }

  /** Text the strict parser accepts has two dots, those of its normal version. */
  lemma ParsedHasTwoDots(s: string)
    requires SemVer.Parse(s).Some?
    ensures !AtMostOneDot(s)
  {
    var v := SemVer.Parse(s).value;
    SemVer.FormatParse(s);
    var a, b := SemVer.NatToDec(v.major), SemVer.NatToDec(v.minor);
    var core := SemVer.Core(v);
    assert core[|a|] == '.' && core[|a| + 1 + |b|] == '.';
    assert s[|a|] == '.' && s[|a| + 1 + |b|] == '.';
  }

  /** A pattern text has two dots. */
  lemma PatternHasTwoDots(s: string, i: nat, e: nat)
    requires i <= e <= |s| && InPattern(s[i..e])
    ensures !AtMostOneDot(s)
  {
    var m := s[i..e];
    var p, q :| 0 <= p < q < |m| && m[p] == '.' && m[q] == '.' && DigitsBut(m, p, q);
    assert s[i + p] == '.' && s[i + q] == '.';
  }

  /**
   * A tag with at most one dot (such as `v1.2`) neither parses nor holds a
   * pattern text: semver fails with the nil match.
   */
  lemma {:induction false} SemverWithoutDot(version: string)
    requires AtMostOneDot(version)
    ensures Semver(version) == Err(NoMatch(version))
  {
    if SemVer.Parse(version).Some? {
      ParsedHasTwoDots(version);
    }
    CleanVersionSpec(version);
    if CleanVersion(version).Some? {
      var i, e :| 0 <= i <= e <= |version| && InPattern(version[i..e]);
      PatternHasTwoDots(version, i, e);
    }
  }

  /** `v1.2`: one dot, so the tag is refused. */
  lemma SemverOfTwoPartTag()
    ensures Semver("v1.2") == Err(NoMatch("v1.2"))
  {
    SemverWithoutDot("v1.2");
  }

  /** Three digit runs joined by dots form a pattern text. */
  lemma RunsFormPattern(a: string, b: string, c: string)
    requires SemVer.AllDigits(a) && SemVer.AllDigits(b) && SemVer.AllDigits(c)
    ensures var m := a + "." + b + "." + c;
      m[|a|] == '.' && m[|a| + 1 + |b|] == '.' && DigitsBut(m, |a|, |a| + 1 + |b|)
  {
    var m := a + "." + b + "." + c;
    forall k | 0 <= k < |m| && k != |a| && k != |a| + 1 + |b| ensures SemVer.IsDigit(m[k]) {
      if k < |a| {
        assert m[k] == a[k];
      } else if k < |a| + 1 + |b| {
        assert m[k] == b[k - |a| - 1];
      } else {
        assert m[k] == c[k - |a| - 2 - |b|];
      }
    }
  }

  /** The leftmost match is the first start position with a match, once every earlier one has none. */
  lemma LeftmostIs(s: string, j: nat, e: nat)
    requires j <= |s| && MatchEndAt(s, j) == Some(e)
    requires forall k :: 0 <= k < j ==> MatchEndAt(s, k).None?
    ensures LeftmostMatch(s, 0) == Some((j, e))
  {
    LeftmostMatchSpec(s, 0);
    assert LeftmostMatch(s, 0).Some?;
    var j' := LeftmostMatch(s, 0).value.0;
    assert !(j' < j) && !(j < j');
  }

  /**
   * A tag made of a prefix with no digit and no dot, a plain version and
   * a suffix that does not continue its digits (a "v1.2.3-rc1" tag) is
   * refused by the strict parser and repaired to exactly that version.
   */
  lemma {:induction false} SemverOfPrefixedTag(prefix: string, major: nat, minor: nat, patch: nat, suffix: string)
    requires |prefix| > 0 && forall k :: 0 <= k < |prefix| ==> !SemVer.IsDigit(prefix[k]) && prefix[k] != '.'
    requires suffix == [] || !SemVer.IsDigit(suffix[0])
    ensures var v := SemVer.Version(major, minor, patch, [], []);
      Semver(prefix + SemVer.Core(v) + suffix) == Ok(v)
  {
    var v := SemVer.Version(major, minor, patch, [], []);
    var m := SemVer.Core(v);
    var s := prefix + m + suffix;
    if SemVer.Parse(s).Some? {
      SemVer.ParseStartsWithDigit(s);
    }
    forall k | 0 <= k < |prefix| ensures MatchEndAt(s, k).None? {
      assert s[k] == prefix[k];
      DigitsEndIs(s, k, k);
    }
    var a, b, c := SemVer.NatToDec(major), SemVer.NatToDec(minor), SemVer.NatToDec(patch);
    RunsFormPattern(a, b, c);
    var i, e := |prefix|, |prefix| + |m|;
    assert s[i..e] == m;
    assert InPattern(s[i..e]);
    if suffix != [] {
      assert s[e] == suffix[0];
    }
    PatternForcesMatch(s, i, e);
    LeftmostIs(s, i, e);
    assert CleanVersion(s) == Some(m);
    assert SemVer.Format(v) == m;
    SemVer.ParseFormat(v);
  }

  /** A text whose digit run is empty is extracted but refused by the strict parser. */
  lemma SemverOfDots()
    ensures Semver("..") == Err(Malformed(".."))
  {
    var s := "..";
    assert DigitsBut(s, 0, 1);
    PatternParse(s, 0, 1);
    assert !SemVer.IsNumeral(s[..0]);
    DigitsEndIs(s, 0, 0);
    DigitsEndIs(s, 1, 1);
    DigitsEndIs(s, 2, 2);
    assert MatchEndAt(s, 0) == Some(2);
    assert LeftmostMatch(s, 0) == Some((0, 2));
    assert s[0..2] == s;
    assert CleanVersion(s) == Some(s);
    assert SemVer.Parse(s) == None;
  }
}
