/**
 * Path strings as Ruby's File and Pathname treat them. Paths are plain
 * strings: nothing here resolves `.`, `..` or repeated separators.
 */
module Paths {

  import opened Wrappers

  type Path = string

  predicate StartsWithSep(p: Path) { |p| > 0 && p[0] == '/' }

  predicate EndsWithSep(p: Path) { |p| > 0 && p[|p| - 1] == '/' }

  /** `p` with every trailing separator removed ("/" becomes ""). */
  function TrimTrailing(p: Path): (r: Path)
    ensures r <= p && !EndsWithSep(r)
    ensures forall k :: |r| <= k < |p| ==> p[k] == '/'
  {
    if EndsWithSep(p) then TrimTrailing(p[..|p| - 1]) else p
  }

  /**
   * File.join of two parts. When the right part starts with a separator,
   * every trailing separator of the left part is dropped; otherwise one
   * separator is inserted unless the left part already ends with one.
   */
  function Join(a: Path, b: Path): Path
  {
    if StartsWithSep(b) then TrimTrailing(a) + b
    else if EndsWithSep(a) then a + b
    else a + "/" + b
  }

  /** A component with no separator in it, such as a project or file name. */
  predicate IsSegment(s: string) { |s| > 0 && '/' !in s }

  /** Index of the last separator in `p`, if any. */
  function LastSep(p: Path): (r: Option<nat>)
    ensures r.None? ==> '/' !in p
    ensures r.Some? ==> r.value < |p| && p[r.value] == '/' && '/' !in p[r.value + 1..]
  {
    if |p| == 0 then None
    else if p[|p| - 1] == '/' then Some(|p| - 1)
    else LastSep(p[..|p| - 1])
  }

  /** Pathname#basename: the text after the last separator. */
  function Basename(p: Path): (r: Path)
    ensures '/' !in r
    ensures |r| <= |p| && p[|p| - |r|..] == r
    ensures |r| == |p| || p[|p| - |r| - 1] == '/'
  {
    match LastSep(p)
    case None => p
    case Some(k) => p[k + 1..]
  }

  /** A path without a separator is its own basename. */
  lemma BasenameOfSegment(p: Path)
    requires '/' !in p
    ensures Basename(p) == p
  {
  }

  /** Pathname#parent: the text before the last separator, "/" or ".". */
  function Parent(p: Path): (r: Path)
    ensures '/' !in p ==> r == "."
    ensures '/' in p ==>
      || (r == "/" && p == "/" + Basename(p))
      || (IsProperAncestor(r, p) && p == r + "/" + Basename(p))
  {
    match LastSep(p)
    case None => "."
    case Some(k) => if k == 0 then "/" else p[..k]
  }

  /** `q` names a directory on the way to `p`: a prefix of `p` followed by a separator. */
  predicate IsProperAncestor(q: Path, p: Path) {
    0 < |q| < |p| && q == p[..|q|] && p[|q|] == '/'
  }

  /** `p` together with every directory above it that FileUtils.mkdir_p would create. */
  function Lineage(p: Path): (r: set<Path>)
    ensures p in r
    ensures forall q :: q in r <==> q == p || IsProperAncestor(q, p)
  {
    var above := set i | 0 < i < |p| && p[i] == '/' :: p[..i];
    assert forall q :: IsProperAncestor(q, p) ==> q == p[..|q|] && q in above;
    above + {p}
  }

  /** Joining a part that does not start with a separator onto one that does not end with one. */
  lemma JoinPlain(a: Path, b: Path)
    requires !EndsWithSep(a) && !StartsWithSep(b)
    ensures Join(a, b) == a + "/" + b
  {
  }

  /** Rebasing an absolute path keeps the root and appends the path to it. */
  lemma JoinAbsolute(a: Path, b: Path)
    requires StartsWithSep(b)
    ensures Join(a, b) == TrimTrailing(a) + b
  {
  }

  lemma TrimTrailingOfSepSuffix(x: Path, y: Path)
    requires forall k :: 0 <= k < |y| ==> y[k] == '/'
    ensures TrimTrailing(x + y) == TrimTrailing(x)
    decreases |y|
  {
    if |y| > 0 {
      assert (x + y)[..|x + y| - 1] == x + y[..|y| - 1];
      TrimTrailingOfSepSuffix(x, y[..|y| - 1]);
    } else {
      assert x + y == x;
    }
  }

  lemma TrimTrailingKeepsBody(x: Path, y: Path)
    requires !EndsWithSep(x) || TrimTrailing(y) != []
    ensures TrimTrailing(x + y) == x + TrimTrailing(y)
    decreases |y|
  {
    if EndsWithSep(y) {
      assert (x + y)[..|x + y| - 1] == x + y[..|y| - 1];
      TrimTrailingKeepsBody(x, y[..|y| - 1]);
    } else if |y| == 0 {
      assert x + y == x;
    }
  }

  /** What File.join puts in front of a part that starts with `first`. */
  function Lead(a: Path, first: char): Path {
    if first == '/' then TrimTrailing(a) else if EndsWithSep(a) then a else a + "/"
  }

  lemma JoinByLead(a: Path, b: Path)
    requires b != []
    ensures Join(a, b) == Lead(a, b[0]) + b
  {
  }

  lemma JoinAssocSep(a: Path, b: Path, c: Path)
    requires b != [] && StartsWithSep(c)
    ensures Join(Join(a, b), c) == Join(a, Join(b, c))
  {
    var x := Lead(a, b[0]);
    JoinByLead(a, b);
    assert Join(b, c) == TrimTrailing(b) + c;
    if TrimTrailing(b) == [] {
      assert b[0] == '/';
      TrimTrailingOfSepSuffix(TrimTrailing(a), b);
      assert TrimTrailing(x) == TrimTrailing(a);
    } else {
      TrimTrailingKeepsBody(x, b);
      assert (TrimTrailing(b) + c)[0] == b[0];
      JoinByLead(a, TrimTrailing(b) + c);
    }
  }

  /** Join onto a part that does not start with a separator. */
  lemma JoinOntoPlain(u: Path, c: Path)
    requires u != [] && !StartsWithSep(c)
    ensures Join(u, c) == u + (if u[|u| - 1] == '/' then [] else "/") + c
  {
  }

  lemma JoinAssocPlain(a: Path, b: Path, c: Path)
    requires b != [] && !StartsWithSep(c)
    ensures Join(Join(a, b), c) == Join(a, Join(b, c))
  {
    var x := Lead(a, b[0]);
    var s: string := if b[|b| - 1] == '/' then [] else "/";
    JoinByLead(a, b);
    JoinOntoPlain(b, c);
    assert (x + b)[|x + b| - 1] == b[|b| - 1];
    JoinOntoPlain(x + b, c);
    assert (b + s + c)[0] == b[0];
    JoinByLead(a, b + s + c);
    assert x + b + s + c == x + (b + s + c);
  }

  /** File.join is associative as long as the middle part is not empty. */
  lemma {:induction false} JoinAssoc(a: Path, b: Path, c: Path)
    requires b != []
    ensures Join(Join(a, b), c) == Join(a, Join(b, c))
  {
    if StartsWithSep(c) {
      JoinAssocSep(a, b, c);
    } else {
      JoinAssocPlain(a, b, c);
    }
  }

  /** Proper ancestry is transitive: the ancestors of an ancestor of `p` are ancestors of `p`. */
  lemma AncestorTransitive(r: Path, q: Path, p: Path)
    requires IsProperAncestor(r, q) && IsProperAncestor(q, p)
    ensures IsProperAncestor(r, p)
  {
    assert p[..|r|] == q[..|r|];
  }

  /** Every directory above `p` is the parent of `p` or lies above it. */
  lemma {:induction false} AncestorsOfParent(p: Path, q: Path)
    requires IsProperAncestor(q, p)
    ensures q in Lineage(Parent(p))
  {
    var k := LastSep(p).value;
    assert p[|q|] == '/';
    assert 0 < k;
    if |q| < k {
      assert p[..k][..|q|] == q;
      assert IsProperAncestor(q, p[..k]);
    }
  }

  /** Creating the parent of `p` and its ancestors never creates `p` itself. */
  lemma NotInParentLineage(p: Path)
    requires p != "/" && p != "."
    ensures p !in Lineage(Parent(p))
  {
  }

  /** A segment joined onto a directory path names an entry whose parent is that path. */
  lemma ParentOfJoin(d: Path, b: Path)
    requires d != [] && !EndsWithSep(d) && IsSegment(b)
    ensures Join(d, b) == d + "/" + b
    ensures Parent(Join(d, b)) == d && Basename(Join(d, b)) == b
  {
    JoinPlain(d, b);
    var p := d + "/" + b;
    assert p[|d|] == '/' && p[|d| + 1..] == b;
    assert LastSep(p).value == |d|;
    assert p[..|d|] == d;
  }

  /**
   * File.join keeps the left part, less its trailing separators, and ends
   * with the right part; a separator always stands between the two.
   */
  lemma JoinEnds(a: Path, b: Path)
    ensures TrimTrailing(a) <= Join(a, b)
    ensures |Join(a, b)| >= |b| && Join(a, b)[|Join(a, b)| - |b|..] == b
    ensures |Join(a, b)| <= |a| + 1 + |b|
    ensures a != [] && !StartsWithSep(b) ==>
      |Join(a, b)| > |b| && Join(a, b)[|Join(a, b)| - |b| - 1] == '/'
  {
  }

  /** Joining a part that is not empty and does not end with a separator gives such a path too. */
  lemma JoinKeepsEnd(a: Path, b: Path)
    requires b != [] && !EndsWithSep(b)
    ensures Join(a, b) != [] && !EndsWithSep(Join(a, b))
  {
    JoinEnds(a, b);
    var j := Join(a, b);
    assert j[|j| - 1] == j[|j| - |b|..][|b| - 1] == b[|b| - 1];
  }

  /** Distinct names joined onto the same directory give distinct paths. */
  lemma JoinInjective(d: Path, b1: Path, b2: Path)
    requires d != [] && '/' !in b1 && '/' !in b2 && b1 != b2
    ensures Join(d, b1) != Join(d, b2)
  {
    var x: Path := d + (if d[|d| - 1] == '/' then [] else "/");
    JoinOntoPlain(d, b1);
    JoinOntoPlain(d, b2);
    assert Join(d, b1)[|x|..] == b1;
    assert Join(d, b2)[|x|..] == b2;
  }
}
