/**
 * The strict version grammar of Semantic Versioning 2.0.0: a normal version
 * X.Y.Z of numeric identifiers without leading zeros (item 2), an optional
 * pre-release after '-' (item 9) and optional build metadata after '+'
 * (item 10). It stands in for Semantic::Version.new, which accepts a string
 * of this form and raises ArgumentError otherwise.
 */
module SemVer {

  import opened Wrappers

  datatype Version = Version(major: nat, minor: nat, patch: nat, pre: seq<string>, build: seq<string>)

  predicate IsDigit(c: char) { '0' <= c <= '9' }

  predicate IsIdentChar(c: char) {
    IsDigit(c) || 'a' <= c <= 'z' || 'A' <= c <= 'Z' || c == '-'
  }

  predicate AllDigits(s: string) { forall k :: 0 <= k < |s| ==> IsDigit(s[k]) }

  /** A numeric identifier: one or more digits and no leading zero. */
  predicate IsNumeral(s: string) { |s| > 0 && AllDigits(s) && (s[0] == '0' ==> |s| == 1) }

  /** A build-metadata identifier: one or more of [0-9A-Za-z-]. */
  predicate IsBuildIdent(s: string) {
    |s| > 0 && forall k :: 0 <= k < |s| ==> IsIdentChar(s[k])
  }

  /** A pre-release identifier: a build identifier that, when all digits, has no leading zero. */
  predicate IsPreIdent(s: string) { IsBuildIdent(s) && (AllDigits(s) ==> IsNumeral(s)) }

  predicate WellFormed(v: Version) {
    && (forall i :: 0 <= i < |v.pre| ==> IsPreIdent(v.pre[i]))
    && (forall i :: 0 <= i < |v.build| ==> IsBuildIdent(v.build[i]))
  }

  function DigitChar(d: nat): (c: char)
    requires d < 10
    ensures IsDigit(c)
  {
    ('0' as int + d) as char
  }

  function DigitValue(c: char): (d: nat)
    requires IsDigit(c)
    ensures d < 10 && DigitChar(d) == c
  {
    c as int - '0' as int
  }

  /** The value of a string of decimal digits. */
  function DecToNat(s: string): nat
    requires AllDigits(s)
    decreases |s|
  {
    if s == [] then 0 else 10 * DecToNat(s[..|s| - 1]) + DigitValue(s[|s| - 1])
  }

  /** The decimal numeral of `n`. */
  function NatToDec(n: nat): (r: string)
    ensures IsNumeral(r)
  {
    if n < 10 then [DigitChar(n)]
    else
      NatToDec(n / 10) + [DigitChar(n % 10)]
  }

  lemma {:induction false} DecOfNat(n: nat)
    ensures DecToNat(NatToDec(n)) == n
  {
    if n >= 10 {
      var s := NatToDec(n);
      assert s[..|s| - 1] == NatToDec(n / 10);
      DecOfNat(n / 10);
    }
  }

  lemma {:induction false} NumeralPositive(s: string)
    requires IsNumeral(s) && s[0] != '0'
    ensures DecToNat(s) > 0
    decreases |s|
  {
    if |s| > 1 {
      NumeralPositive(s[..|s| - 1]);
    }
  }

  lemma {:induction false} NatOfDec(s: string)
    requires IsNumeral(s)
    ensures NatToDec(DecToNat(s)) == s
    decreases |s|
  {
    if |s| > 1 {
      var init := s[..|s| - 1];
      NumeralPositive(init);
      NatOfDec(init);
      var n := DecToNat(s);
      assert n / 10 == DecToNat(init) && n % 10 == DigitValue(s[|s| - 1]);
      assert s == init + [s[|s| - 1]];
    }
  }

  /** The first position of `c` in `s`. */
  function IndexOf(s: string, c: char): (r: Option<nat>)
    ensures r.None? <==> c !in s
    ensures r.Some? ==> r.value < |s| && s[r.value] == c && c !in s[..r.value]
  {
    if s == [] then None
    else if s[0] == c then Some(0)
    else match IndexOf(s[1..], c)
      case None => None
      case Some(i) => assert s[1..][..i] == s[1..i + 1]; Some(i + 1)
  }

  lemma IndexOfSplice(a: string, c: char, b: string)
    requires c !in a
    ensures IndexOf(a + [c] + b, c) == Some(|a|)
  {
    var s := a + [c] + b;
    assert s[|a|] == c;
  }

  /** The text before the first `c`, and the text after it when there is one. */
  function Cut(s: string, c: char): (string, Option<string>) {
    match IndexOf(s, c)
    case None => (s, None)
    case Some(i) => (s[..i], Some(s[i + 1..]))
  }

  lemma CutRejoins(s: string, c: char)
    ensures Cut(s, c).1.None? ==> Cut(s, c).0 == s
    ensures Cut(s, c).1.Some? ==> s == Cut(s, c).0 + [c] + Cut(s, c).1.value && c !in Cut(s, c).0
  {
  }

  /** String#split(sep, -1): the pieces between separators, empty ones included. */
  function SplitOn(s: string, sep: char): (parts: seq<string>)
    ensures |parts| >= 1
    ensures forall i :: 0 <= i < |parts| ==> sep !in parts[i]
    decreases |s|
  {
    match IndexOf(s, sep)
    case None => [s]
    case Some(i) => [s[..i]] + SplitOn(s[i + 1..], sep)
  }

  /** Array#join(sep) */
  function JoinWith(parts: seq<string>, sep: char): string
    decreases |parts|
  {
    if parts == [] then []
    else if |parts| == 1 then parts[0]
    else parts[0] + [sep] + JoinWith(parts[1..], sep)
  }

  lemma {:induction false} JoinOfSplit(s: string, sep: char)
    ensures JoinWith(SplitOn(s, sep), sep) == s
    decreases |s|
  {
    match IndexOf(s, sep)
    case None =>
    case Some(i) =>
      JoinOfSplit(s[i + 1..], sep);
      assert SplitOn(s, sep)[1..] == SplitOn(s[i + 1..], sep);
      assert s == s[..i] + [sep] + s[i + 1..];
  }

  lemma {:induction false} SplitOfJoin(parts: seq<string>, sep: char)
    requires |parts| >= 1
    requires forall i :: 0 <= i < |parts| ==> sep !in parts[i]
    ensures SplitOn(JoinWith(parts, sep), sep) == parts
    decreases |parts|
  {
    if |parts| > 1 {
      var rest := JoinWith(parts[1..], sep);
      IndexOfSplice(parts[0], sep, rest);
      assert (parts[0] + [sep] + rest)[..|parts[0]|] == parts[0];
      assert (parts[0] + [sep] + rest)[|parts[0]| + 1..] == rest;
      SplitOfJoin(parts[1..], sep);
    } else {
      assert IndexOf(parts[0], sep).None?;
    }
  }

  lemma {:induction false} JoinWithAvoids(parts: seq<string>, sep: char, c: char)
    requires c != sep
    requires forall i :: 0 <= i < |parts| ==> c !in parts[i]
    ensures c !in JoinWith(parts, sep)
    decreases |parts|
  {
    if |parts| > 1 {
      JoinWithAvoids(parts[1..], sep, c);
    }
  }

  /** Semantic::Version.new: the version a string spells, or None where it raises. */
  function Parse(s: string): Option<Version> {
    var (main, build) := Cut(s, '+');
    var (core, pre) := Cut(main, '-');
    FromParts(core, pre, build)
  }

  /** The identifiers of a part cut off the text, none when it is absent. */
  function Idents(part: Option<string>): seq<string> {
    if part.Some? then SplitOn(part.value, '.') else []
  }

  predicate ValidParts(nums: seq<string>, preIds: seq<string>, buildIds: seq<string>) {
    && |nums| == 3
    && IsNumeral(nums[0]) && IsNumeral(nums[1]) && IsNumeral(nums[2])
    && (forall i :: 0 <= i < |preIds| ==> IsPreIdent(preIds[i]))
    && (forall i :: 0 <= i < |buildIds| ==> IsBuildIdent(buildIds[i]))
  }

  /** The version spelt by a normal version, a pre-release part and a build part. */
  function FromParts(core: string, pre: Option<string>, build: Option<string>): Option<Version> {
    var nums := SplitOn(core, '.');
    if ValidParts(nums, Idents(pre), Idents(build))
    then Some(Version(DecToNat(nums[0]), DecToNat(nums[1]), DecToNat(nums[2]), Idents(pre), Idents(build)))
    else None
  }

  function Core(v: Version): string {
    NatToDec(v.major) + "." + NatToDec(v.minor) + "." + NatToDec(v.patch)
  }

  /** A list of identifiers after its marker character, or nothing when the list is empty. */
  function Tail(marker: char, ids: seq<string>): string {
    if ids == [] then "" else [marker] + JoinWith(ids, '.')
  }

  /** Semantic::Version#to_s */
  function Format(v: Version): string {
    Core(v) + Tail('-', v.pre) + Tail('+', v.build)
  }

  lemma JoinWith3(a: string, b: string, c: string, sep: char)
    ensures JoinWith([a, b, c], sep) == a + [sep] + b + [sep] + c
  {
    assert [a, b, c][1..] == [b, c];
    assert [b, c][1..] == [c];
    assert JoinWith([c], sep) == c;
    assert JoinWith([b, c], sep) == b + [sep] + c;
  }

  lemma CoreSplits(v: Version)
    ensures SplitOn(Core(v), '.') == [NatToDec(v.major), NatToDec(v.minor), NatToDec(v.patch)]
    ensures '-' !in Core(v) && '+' !in Core(v)
  {
    var ns := [NatToDec(v.major), NatToDec(v.minor), NatToDec(v.patch)];
    JoinWith3(ns[0], ns[1], ns[2], '.');
    assert JoinWith(ns, '.') == Core(v);
    SplitOfJoin(ns, '.');
    JoinWithAvoids(ns, '.', '-');
    JoinWithAvoids(ns, '.', '+');
  }

  lemma CutSplice(a: string, c: char, b: string)
    requires c !in a
    ensures Cut(a + [c] + b, c) == (a, Some(b))
  {
    IndexOfSplice(a, c, b);
    assert (a + [c] + b)[..|a|] == a;
    assert (a + [c] + b)[|a| + 1..] == b;
  }

  /** Cutting a text made of `a` and a tail of identifiers after `c` gives them back. */
  lemma CutTail(a: string, c: char, ids: seq<string>)
    requires c !in a
    ensures Cut(a + Tail(c, ids), c) == (a, if ids == [] then None else Some(JoinWith(ids, '.')))
  {
    if ids == [] {
      assert a + Tail(c, ids) == a;
    } else {
      assert a + Tail(c, ids) == a + [c] + JoinWith(ids, '.');
      CutSplice(a, c, JoinWith(ids, '.'));
    }
  }

  lemma TailAvoids(marker: char, ids: seq<string>, c: char)
    requires c != marker && c != '.'
    requires forall i :: 0 <= i < |ids| ==> c !in ids[i]
    ensures c !in Tail(marker, ids)
  {
    if ids != [] {
      JoinWithAvoids(ids, '.', c);
    }
  }

  lemma IdentsAvoid(ids: seq<string>, c: char)
    requires !IsIdentChar(c)
    requires forall i :: 0 <= i < |ids| ==> IsBuildIdent(ids[i])
    ensures forall i :: 0 <= i < |ids| ==> c !in ids[i]
  {
  }

  lemma SplitOfTail(ids: seq<string>)
    requires forall i :: 0 <= i < |ids| ==> '.' !in ids[i]
    ensures (if ids == [] then [] else SplitOn(JoinWith(ids, '.'), '.')) == ids
  {
    if ids != [] {
      SplitOfJoin(ids, '.');
    }
  }

  /** The part a list of identifiers is written as: absent when the list is empty. */
  function PartOf(ids: seq<string>): Option<string> {
    if ids == [] then None else Some(JoinWith(ids, '.'))
  }

  lemma ParseOfFormat(v: Version)
    requires WellFormed(v)
    ensures Parse(Format(v)) == FromParts(Core(v), PartOf(v.pre), PartOf(v.build))
  {
    var core := Core(v);
    var main := core + Tail('-', v.pre);
    CoreSplits(v);
    IdentsAvoid(v.pre, '+');
    IdentsAvoid(v.pre, '.');
    TailAvoids('-', v.pre, '+');
    CutTail(main, '+', v.build);
    CutTail(core, '-', v.pre);
  }

  lemma IdentsOfPart(ids: seq<string>)
    requires forall i :: 0 <= i < |ids| ==> IsBuildIdent(ids[i])
    ensures Idents(PartOf(ids)) == ids
  {
    IdentsAvoid(ids, '.');
    SplitOfTail(ids);
  }

  lemma FromPartsOfVersion(v: Version)
    requires WellFormed(v)
    ensures FromParts(Core(v), PartOf(v.pre), PartOf(v.build)) == Some(v)
  {
    CoreSplits(v);
    IdentsOfPart(v.pre);
    IdentsOfPart(v.build);
    DecOfNat(v.major);
    DecOfNat(v.minor);
    DecOfNat(v.patch);
  }

  /** Every well-formed version is read back from its own text. */
  lemma {:induction false} ParseFormat(v: Version)
    requires WellFormed(v)
    ensures Parse(Format(v)) == Some(v)
  {
    ParseOfFormat(v);
    FromPartsOfVersion(v);
  }

  /** The text a cut-off part stands for: its marker and the part, or nothing. */
  function PartText(marker: char, part: Option<string>): string {
    if part.Some? then [marker] + part.value else ""
  }

  lemma TailOfSplit(c: char, part: Option<string>)
    ensures Tail(c, Idents(part)) == PartText(c, part)
  {
    if part.Some? {
      JoinOfSplit(part.value, '.');
    }
  }

  lemma CutText(s: string, c: char)
    ensures s == Cut(s, c).0 + PartText(c, Cut(s, c).1)
  {
    CutRejoins(s, c);
  }

  lemma CoreOfNumerals(core: string, pre: seq<string>, build: seq<string>)
    requires var nums := SplitOn(core, '.');
      |nums| == 3 && IsNumeral(nums[0]) && IsNumeral(nums[1]) && IsNumeral(nums[2])
    ensures var nums := SplitOn(core, '.');
      Core(Version(DecToNat(nums[0]), DecToNat(nums[1]), DecToNat(nums[2]), pre, build)) == core
  {
    var nums := SplitOn(core, '.');
    JoinOfSplit(core, '.');
    assert nums == [nums[0], nums[1], nums[2]];
    JoinWith3(nums[0], nums[1], nums[2], '.');
    NatOfDec(nums[0]);
    NatOfDec(nums[1]);
    NatOfDec(nums[2]);
  }

  lemma FromPartsFormat(core: string, pre: Option<string>, build: Option<string>)
    requires FromParts(core, pre, build).Some?
    ensures var v := FromParts(core, pre, build).value;
      WellFormed(v) && Format(v) == core + PartText('-', pre) + PartText('+', build)
  {
    var v := FromParts(core, pre, build).value;
    assert ValidParts(SplitOn(core, '.'), Idents(pre), Idents(build));
    CoreOfNumerals(core, v.pre, v.build);
    TailOfSplit('-', pre);
    TailOfSplit('+', build);
  }

  /** Whatever parses is well formed and is exactly the text of the version it gives. */
  lemma {:induction false} FormatParse(s: string)
    requires Parse(s).Some?
    ensures WellFormed(Parse(s).value) && Format(Parse(s).value) == s
  {
    var main := Cut(s, '+').0;
    var build := Cut(s, '+').1;
    var core := Cut(main, '-').0;
    var pre := Cut(main, '-').1;
    assert Parse(s) == FromParts(core, pre, build);
    CutText(s, '+');
    CutText(main, '-');
    FromPartsFormat(core, pre, build);
  }

  /** Text the strict parser accepts begins with a digit: a leading "v" is always refused. */
  lemma ParseStartsWithDigit(s: string)
    requires Parse(s).Some?
    ensures |s| > 0 && IsDigit(s[0])
  {
    FormatParse(s);
    var v := Parse(s).value;
    var d := NatToDec(v.major);
    assert (d + ".")[0] == d[0];
    assert Core(v)[0] == d[0];
    assert Format(v)[0] == Core(v)[0];
  }
}
