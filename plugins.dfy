/**
 * Packaging::Plugins: the display name and type of a Snap plugin
 * repository, and the JSONP listing `metadata` builds from the plugin
 * repositories. The GitHub lookup is replaced by the list of repositories
 * it returns, and JSON.pretty_generate by a serializer passed in.
 */
module Plugins {

  import opened Wrappers
  import opened Strings

  datatype Kind = Collector | Processor | Publisher

  function KindName(k: Kind): string {
    match k
    case Collector => "collector"
    case Processor => "processor"
    case Publisher => "publisher"
  }

  /** The order in which the type classification tries the kinds. */
  function Rank(k: Kind): nat {
    match k
    case Collector => 0
    case Processor => 1
    case Publisher => 2
  }

  /** What a plugin repository name starts with: snap-plugin-<kind>-. */
  function Prefix(k: Kind): string {
    "snap-plugin-" + KindName(k) + "-"
  }

  datatype PluginError =
    | UnknownPlugin(repoName: string)  // the ArgumentError for a name that does not match
    | NilSlice                         // the TypeError of adding nil: the captured suffix is empty

  // ---------------------------------------------------------------------------
  // The match of ^snap-plugin-(collector|processor|publisher)-(.*)$
  // In Ruby, ^ and $ match at every line boundary and . never matches a
  // line break, so the match is looked for line by line.

  /** `i` is where a line of `s` begins. */
  predicate LineStart(s: string, i: nat) {
    i == 0 || (0 < i <= |s| && s[i - 1] == '\n')
  }

  /** The end of the line that position `j` is on. */
  function LineEnd(s: string, j: nat): (e: nat)
    requires j <= |s|
    ensures j <= e <= |s| && (e == |s| || s[e] == '\n')
    ensures forall k :: j <= k < e ==> s[k] != '\n'
    decreases |s| - j
  {
    if j == |s| || s[j] == '\n' then j else LineEnd(s, j + 1)
  }

  /** The kind whose prefix starts at position `i`, trying the alternatives in order. */
  function KindAt(s: string, i: nat): (r: Option<Kind>)
    ensures r.Some? ==> OccursAt(s, Prefix(r.value), i)
    ensures r.None? ==> forall k :: !OccursAt(s, Prefix(k), i)
  {
    if OccursAt(s, Prefix(Collector), i) then Some(Collector)
    else if OccursAt(s, Prefix(Processor), i) then Some(Processor)
    else if OccursAt(s, Prefix(Publisher), i) then Some(Publisher)
    else
      NoKindAt(s, i);
      None
  }

  /** The three alternatives are all the kinds there are. */
  lemma NoKindAt(s: string, i: nat)
    requires !OccursAt(s, Prefix(Collector), i)
    requires !OccursAt(s, Prefix(Processor), i)
    requires !OccursAt(s, Prefix(Publisher), i)
    ensures forall k :: !OccursAt(s, Prefix(k), i)
  {
    forall k ensures !OccursAt(s, Prefix(k), i) {
      match k
      case Collector =>
      case Processor =>
      case Publisher =>
    }
  }

  /** The first line start at or after the line start `i` where `hit` holds. */
  function FirstLineFrom(s: string, i: nat, hit: nat -> bool): Option<nat>
    requires i <= |s|
    decreases |s| - i
  {
    if hit(i) then Some(i)
    else
      var e := LineEnd(s, i);
      if e == |s| then None else FirstLineFrom(s, e + 1, hit)
  }

  /** No line starting in [i, j) satisfies `hit`. */
  ghost predicate NoHitBefore(s: string, i: nat, j: nat, hit: nat -> bool) {
    forall m :: i <= m < j && LineStart(s, m) ==> !hit(m)
  }

  /** The line search finds the first line start where `hit` holds, and finds nothing exactly when there is none. */
  lemma {:induction false} FirstLineFromSpec(s: string, i: nat, hit: nat -> bool)
    requires i <= |s| && LineStart(s, i)
    ensures var r := FirstLineFrom(s, i, hit);
      && (r.Some? ==> i <= r.value <= |s| && LineStart(s, r.value) && hit(r.value) && NoHitBefore(s, i, r.value, hit))
      && (r.None? ==> NoHitBefore(s, i, |s| + 1, hit))
    decreases |s| - i
  {
    if !hit(i) {
      var e := LineEnd(s, i);
      forall m | i < m <= e ensures !LineStart(s, m) {
        assert s[m - 1] != '\n';
      }
      if e < |s| {
        FirstLineFromSpec(s, e + 1, hit);
      }
    }
  }

  /** Whether a plugin prefix starts at position `m` of `s`. */
  function PrefixHit(s: string): nat -> bool {
    (m: nat) => KindAt(s, m).Some?
  }

  /** The first line of `s` that starts with a plugin prefix. */
  function MatchLine(s: string): Option<nat> {
    FirstLineFrom(s, 0, PrefixHit(s))
  }

  /** The kind and the second group of the match, if the name matches. */
  function Capture(s: string): Option<(Kind, string)> {
    match MatchLine(s)
    case None => None
    case Some(i) =>
      if i <= |s| && KindAt(s, i).Some? then
        var k := KindAt(s, i).value;
        var b := i + |Prefix(k)|;
        Some((k, s[b..LineEnd(s, b)]))
      else None
  }

  /**
   * The name matches exactly when some line of it starts with a plugin
   * prefix, and the match is on the first such line.
   */
  lemma MatchLineSpec(s: string)
    ensures MatchLine(s).None? ==> forall m :: 0 <= m <= |s| && LineStart(s, m) ==> KindAt(s, m).None?
    ensures MatchLine(s).Some? ==> FirstMatch(s, MatchLine(s).value)
  {
    var hit := PrefixHit(s);
    FirstLineFromSpec(s, 0, hit);
    if MatchLine(s).Some? {
      var i := MatchLine(s).value;
      assert hit(i);
      forall m | 0 <= m < i && LineStart(s, m) ensures KindAt(s, m).None? {
        assert !hit(m);
      }
    } else {
      forall m | 0 <= m <= |s| && LineStart(s, m) ensures KindAt(s, m).None? {
        assert !hit(m);
      }
    }
  }

  /** The line starting at `i` is the first that starts with a plugin prefix. */
  ghost predicate FirstMatch(s: string, i: nat) {
    && i <= |s| && LineStart(s, i) && KindAt(s, i).Some?
    && (forall m :: 0 <= m < i && LineStart(s, m) ==> KindAt(s, m).None?)
  }

  /**
   * The kind and the captured text come from the first line that starts
   * with a plugin prefix, and the text runs from the prefix to the end of
   * that line; there is no capture exactly when no line has a prefix.
   */
  lemma CaptureSpec(s: string)
    ensures Capture(s).None? ==> forall m :: 0 <= m <= |s| && LineStart(s, m) ==> KindAt(s, m).None?
    ensures Capture(s).Some? ==> MatchLine(s).Some? && FirstMatch(s, MatchLine(s).value)
    ensures Capture(s).Some? ==>
      var i := MatchLine(s).value;
      var k := Capture(s).value.0;
      var b := i + |Prefix(k)|;
      && i <= |s| && KindAt(s, i) == Some(k) && b <= LineEnd(s, b) <= |s|
      && Capture(s).value.1 == s[b..LineEnd(s, b)]
  {
    MatchLineSpec(s);
  }

  /** A one-line name made of a prefix and a suffix captures exactly that kind and suffix. */
  lemma CaptureOfPrefixed(k: Kind, suffix: string)
    requires '\n' !in suffix
    ensures Capture(Prefix(k) + suffix) == Some((k, suffix))
  {
    var s := Prefix(k) + suffix;
    var n := |Prefix(k)|;
    assert s[..n] == Prefix(k);
    assert s[0..n] == Prefix(k);
    assert KindAt(s, 0) == Some(k) by {
      PrefixAlternatives(k, s);
    }
    assert PrefixHit(s)(0);
    assert MatchLine(s) == Some(0);
    var e := LineEnd(s, n);
    assert e == |s|;
    assert s[n..e] == suffix;
  }

  /** Only the prefix of `k` can start a text that starts with the prefix of `k`. */
  lemma PrefixAlternatives(k: Kind, s: string)
    requires OccursAt(s, Prefix(k), 0)
    ensures forall k' :: OccursAt(s, Prefix(k'), 0) ==> k' == k
  {
    forall k' | OccursAt(s, Prefix(k'), 0) ensures k' == k {
      assert s[12] == Prefix(k)[12] == Prefix(k')[12];
      assert s[13] == Prefix(k)[13] == Prefix(k')[13];
    }
  }

  // ---------------------------------------------------------------------------
  // plugin_name

  /** The display names the table gives; every other suffix is capitalised. */
  const Acronyms: map<string, string> := map[
    "ceph" := "CEPH",
    "cpu" := "CPU",
    "dbi" := "DBI",
    "heka" := "HEKA",
    "hana" := "HANA",
    "haproxy" := "HAproxy",
    "iostat" := "IOstat",
    "influxdb" := "InfluxDB",
    "mysql" := "MySQL",
    "nfs-client" := "NFS Client",
    "opentsdb" := "OpenTSDB",
    "osv" := "OSv",
    "postgresql" := "PostgreSQL",
    "pcm" := "PCM",
    "psutil" := "PSUtil",
    "rabbitmq" := "RabbitMQ"
  ]

  /** Upper-casing of one character; only ASCII letters are mapped. */
  function Upcase(c: char): (u: char)
    ensures 'a' <= c <= 'z' ==> 'A' <= u <= 'Z' && u as int == c as int - 32
    ensures !('a' <= c <= 'z') ==> u == c
  {
    if 'a' <= c <= 'z' then (c as int - 32) as char else c
  }

  /** The display name of a captured suffix: the table, else its first character capitalised. */
  function DisplayName(suffix: string): Result<string, PluginError> {
    if suffix in Acronyms then Ok(Acronyms[suffix])
    else if suffix == [] then Err(NilSlice)
    else Ok([Upcase(suffix[0])] + suffix[1..])
  }

  /** Packaging::Plugins.plugin_name of a repository name. */
  function PluginName(repoName: string): Result<string, PluginError> {
    match Capture(repoName)
    case None => Err(UnknownPlugin(repoName))
    case Some((_, suffix)) => DisplayName(suffix)
  }

  /**
   * The table is consulted first; only an empty suffix fails, since the
   * empty string is not a key; any other suffix keeps its length and
   * everything after its first character, which is upper-cased.
   */
  lemma DisplayNameSpec(suffix: string)
    ensures suffix in Acronyms ==> DisplayName(suffix) == Ok(Acronyms[suffix])
    ensures DisplayName(suffix) == Err(NilSlice) <==> suffix == []
    ensures suffix !in Acronyms && suffix != [] ==>
      var n := DisplayName(suffix).value;
      && |n| == |suffix| && n[0] == Upcase(suffix[0])
      && forall i :: 1 <= i < |suffix| ==> n[i] == suffix[i]
  {
    assert "" !in Acronyms by {
      assert forall key :: key in Acronyms ==> |key| > 0;
    }
  }

  /** A few table entries, the fallback and the empty suffix. */
  lemma DisplayNameExamples()
    ensures DisplayName("mysql") == Ok("MySQL")
    ensures DisplayName("nfs-client") == Ok("NFS Client")
    ensures DisplayName("haproxy") == Ok("HAproxy")
    ensures DisplayName("foobar") == Ok("Foobar")
    ensures DisplayName("") == Err(NilSlice)
  {
    DisplayNameSpec("");
    assert "foobar" !in Acronyms by {
      assert forall key :: key in Acronyms ==> key[0] != 'f';
    }
    assert [Upcase('f')] + "oobar" == "Foobar";
    assert "foobar"[1..] == "oobar";
  }

  /**
   * A name is refused with an ArgumentError carrying the name exactly when
   * no line of it starts with a plugin prefix, and fails on the nil slice
   * exactly when the captured text is empty.
   */
  lemma PluginNameSpec(repoName: string)
    ensures PluginName(repoName) == Err(UnknownPlugin(repoName)) <==>
      forall m :: 0 <= m <= |repoName| && LineStart(repoName, m) ==> KindAt(repoName, m).None?
    ensures PluginName(repoName) == Err(NilSlice) <==> Capture(repoName).Some? && Capture(repoName).value.1 == []
  {
    CaptureSpec(repoName);
    if Capture(repoName).Some? {
      DisplayNameSpec(Capture(repoName).value.1);
    }
  }

  /** For a one-line name, plugin_name is the display name of what follows the prefix. */
  lemma PluginNameOfPrefixed(k: Kind, suffix: string)
    requires '\n' !in suffix
    ensures PluginName(Prefix(k) + suffix) == DisplayName(suffix)
  {
    CaptureOfPrefixed(k, suffix);
  }

  /** snap-plugin-<kind>- with nothing after it passes the match and then fails. */
  lemma PluginNameOfBarePrefix(k: Kind)
    ensures PluginName(Prefix(k)) == Err(NilSlice)
  {
    assert Prefix(k) + "" == Prefix(k);
    PluginNameOfPrefixed(k, "");
    DisplayNameSpec("");
  }

  // ---------------------------------------------------------------------------
  // The type classification in metadata

  /** The first kind, in rank order, whose word occurs anywhere in the name. */
  function Classify(repoName: string): Option<Kind> {
    if Contains(repoName, "collector") then Some(Collector)
    else if Contains(repoName, "processor") then Some(Processor)
    else if Contains(repoName, "publisher") then Some(Publisher)
    else None
  }

  /** The "type" field of a record. */
  function TypeName(c: Option<Kind>): string {
    match c
    case Some(k) => KindName(k)
    case None => "unknown"
  }

  /**
   * The classification is the kind of lowest rank whose word occurs in the
   * name, and there is none exactly when no kind's word occurs.
   */
  lemma ClassifySpec(repoName: string)
    ensures forall k :: Classify(repoName) == Some(k) ==>
      Contains(repoName, KindName(k)) && forall k' :: Rank(k') < Rank(k) ==> !Contains(repoName, KindName(k'))
    ensures Classify(repoName).None? <==> forall k :: !Contains(repoName, KindName(k))
  {
  }

  /**
   * A matching name always has a type, and never one of lower priority
   * than the kind in its prefix; the word of a lower-ranked kind anywhere
   * in the name takes precedence.
   */
  lemma ClassifyOfMatch(repoName: string)
    requires Capture(repoName).Some?
    ensures Classify(repoName).Some?
    ensures Rank(Classify(repoName).value) <= Rank(Capture(repoName).value.0)
  {
    CaptureSpec(repoName);
    var i := MatchLine(repoName).value;
    var k := Capture(repoName).value.0;
    WordInPrefix(repoName, i, k);
    ContainsAt(repoName, KindName(k), i + 12);
    ClassifyRank(repoName, k);
  }

  /** The kind's word sits after "snap-plugin-" in its prefix. */
  lemma WordInPrefix(s: string, i: nat, k: Kind)
    requires OccursAt(s, Prefix(k), i)
    ensures OccursAt(s, KindName(k), i + 12)
  {
    var w := KindName(k);
    assert |w| == 9;
    assert s[i..i + 22][12..21] == s[i + 12..i + 21];
    assert Prefix(k)[12..21] == w;
  }

  /** Once the word of `k` occurs, the classification is `k` or a kind tried before it. */
  lemma ClassifyRank(s: string, k: Kind)
    requires Contains(s, KindName(k))
    ensures Classify(s).Some? && Rank(Classify(s).value) <= Rank(k)
  {
  }

  /** The type and the name's own kind can disagree: a publisher whose suffix mentions "collector". */
  lemma ClassifyDisagrees(suffix: string)
    requires '\n' !in suffix && Contains(suffix, "collector")
    ensures Capture(Prefix(Publisher) + suffix) == Some((Publisher, suffix))
    ensures Classify(Prefix(Publisher) + suffix) == Some(Collector)
  {
    CaptureOfPrefixed(Publisher, suffix);
    var s := Prefix(Publisher) + suffix;
    ContainsSpec(suffix, "collector");
    var j :| 0 <= j <= |suffix| && OccursAt(suffix, "collector", j);
    var n := |Prefix(Publisher)|;
    assert s[n + j..n + j + 9] == suffix[j..j + 9];
    ContainsAt(s, "collector", n + j);
  }

  // ---------------------------------------------------------------------------
  // Records and the listing

  /** What the GitHub lookup returns for a repository, as far as metadata reads it. */
  datatype Repo = Repo(name: string, description: Option<string>, htmlUrl: string)

  /** The record metadata builds for one repository, as its key/value pairs in order. */
  datatype Record = Record(name: string, kind: string, description: string, url: string)

  const DefaultDescription: string := "No description."

  function RecordOf(repo: Repo): Result<Record, PluginError> {
    match PluginName(repo.name)
    case Err(e) => Err(e)
    case Ok(n) =>
      Ok(Record(n, TypeName(Classify(repo.name)), repo.description.GetOr(DefaultDescription), repo.htmlUrl))
  }

  /** The hash of a record as the serializer sees it; the description key is spelt as the listing spells it. */
  function Pairs(r: Record): seq<(string, string)> {
    [("name", r.name), ("type", r.kind), ("desription", r.description), ("url", r.url)]
  }

  /** The hash metadata appends for one repository, or the error plugin_name raises for it. */
  function RecordPairs(repo: Repo): Result<seq<(string, string)>, PluginError> {
    match RecordOf(repo)
    case Err(e) => Err(e)
    case Ok(r) => Ok(Pairs(r))
  }

  /** `f` of each element in order, stopping at the first error: a loop that appends or raises. */
  function Collect<A, B, E>(xs: seq<A>, f: A -> Result<B, E>): Result<seq<B>, E>
    decreases |xs|
  {
    if xs == [] then Ok([])
    else
      match Collect(xs[..|xs| - 1], f)
      case Err(e) => Err(e)
      case Ok(ys) =>
        match f(xs[|xs| - 1])
        case Err(e) => Err(e)
        case Ok(y) => Ok(ys + [y])
  }

  /** The records of the repositories in order, or the first repository's error. */
  function Records(repos: seq<Repo>): Result<seq<seq<(string, string)>>, PluginError> {
    Collect(repos, RecordPairs)
  }

  /** The JSONP wrapping of the serialized records. */
  function Wrap(json: string): string {
    "myfcn(\n" + json + "\n)"
  }

  /** The text inside the wrapping, if `text` is wrapped. */
  function Unwrap(text: string): Option<string> {
    if |text| >= 9 && text[..7] == "myfcn(\n" && text[|text| - 2..] == "\n)" then Some(text[7..|text| - 2])
    else None
  }

  /** The wrapping can be taken off again, so the serialized records are kept whole. */
  lemma UnwrapWrap(json: string)
    ensures Unwrap(Wrap(json)) == Some(json)
  {
    var w := Wrap(json);
    assert |"myfcn(\n"| == 7 && |"\n)"| == 2;
    assert w[..7] == "myfcn(\n";
    assert w[|w| - 2..] == "\n)";
    assert w[7..|w| - 2] == json;
  }

  /** What metadata returns: the wrapped listing, or the error of the first repository that has no name. */
  function MetadataOf(repos: seq<Repo>, serialize: seq<seq<(string, string)>> -> string): Result<string, PluginError> {
    match Records(repos)
    case Err(e) => Err(e)
    case Ok(data) => Ok(Wrap(serialize(data)))
  }

  /** Element `i` is the first on which `f` fails. */
  ghost predicate FirstFailure<A, B, E>(xs: seq<A>, f: A -> Result<B, E>, i: nat) {
    && i < |xs| && f(xs[i]).Err?
    && forall j :: 0 <= j < i ==> f(xs[j]).Ok?
  }

  /**
   * Collect succeeds exactly when `f` succeeds on every element, and then
   * gives one result per element, in order; otherwise it fails with the
   * error of the first element on which `f` fails.
   */
  lemma {:induction false} CollectSpec<A, B, E>(xs: seq<A>, f: A -> Result<B, E>)
    ensures Collect(xs, f).Ok? <==> forall i :: 0 <= i < |xs| ==> f(xs[i]).Ok?
    ensures Collect(xs, f).Ok? ==>
      |Collect(xs, f).value| == |xs| && forall i :: 0 <= i < |xs| ==> Collect(xs, f).value[i] == f(xs[i]).value
    ensures Collect(xs, f).Err? ==> exists i: nat :: FirstFailure(xs, f, i) && Collect(xs, f).error == f(xs[i]).error
    decreases |xs|
  {
    if xs != [] {
      var init := xs[..|xs| - 1];
      CollectSpec(init, f);
      assert forall i :: 0 <= i < |init| ==> xs[i] == init[i];
      if Collect(init, f).Err? {
        var i: nat :| FirstFailure(init, f, i) && Collect(init, f).error == f(init[i]).error;
        assert FirstFailure(xs, f, i);
      } else if f(xs[|xs| - 1]).Err? {
        assert FirstFailure(xs, f, |xs| - 1);
      }
    }
  }

  lemma {:induction false} CollectFailStays<A, B, E>(xs: seq<A>, f: A -> Result<B, E>, n: nat)
    requires 0 < n <= |xs| && Collect(xs[..n], f).Err?
    ensures Collect(xs, f) == Collect(xs[..n], f)
    decreases |xs| - n
  {
    if n < |xs| {
      assert xs[..n + 1][..n] == xs[..n];
      CollectFailStays(xs, f, n + 1);
    } else {
      assert xs[..n] == xs;
    }
  }

  /**
   * Each record carries the plugin name, the type, the description or
   * "No description." when the repository has none, and the page URL,
   * under the keys the listing uses.
   */
  lemma RecordOfSpec(repo: Repo)
    ensures RecordPairs(repo).Ok? <==> PluginName(repo.name).Ok?
    ensures RecordPairs(repo).Err? ==> RecordPairs(repo).error == PluginName(repo.name).error
    ensures RecordPairs(repo).Ok? ==>
      RecordPairs(repo).value == [
        ("name", PluginName(repo.name).value),
        ("type", TypeName(Classify(repo.name))),
        ("desription", if repo.description.Some? then repo.description.value else "No description."),
        ("url", repo.htmlUrl)]
  {
  }

  /**
   * metadata emits one record per repository, in order, inside the JSONP
   * wrapping, or fails with the error of the first repository whose name
   * plugin_name refuses.
   */
  lemma MetadataSpec(repos: seq<Repo>, serialize: seq<seq<(string, string)>> -> string)
    ensures MetadataOf(repos, serialize).Ok? <==> forall i :: 0 <= i < |repos| ==> PluginName(repos[i].name).Ok?
    ensures MetadataOf(repos, serialize).Ok? ==>
      exists data :: |data| == |repos| &&
        (forall i :: 0 <= i < |repos| ==> data[i] == RecordPairs(repos[i]).value) &&
        Unwrap(MetadataOf(repos, serialize).value) == Some(serialize(data))
    ensures MetadataOf(repos, serialize).Err? ==>
      exists i: nat :: FirstFailure(repos, RecordPairs, i) && MetadataOf(repos, serialize).error == PluginName(repos[i].name).error
  {
    CollectSpec(repos, RecordPairs);
    forall i | 0 <= i < |repos| ensures RecordPairs(repos[i]).Ok? <==> PluginName(repos[i].name).Ok? {
      RecordOfSpec(repos[i]);
    }
    if Records(repos).Ok? {
      UnwrapWrap(serialize(Records(repos).value));
    } else {
      var i: nat :| FirstFailure(repos, RecordPairs, i) && Records(repos).error == RecordPairs(repos[i]).error;
      RecordOfSpec(repos[i]);
    }
  }

  /**
   * metadata: build the records one repository at a time, then wrap their
   * serialization.
   */
  method Metadata(repos: seq<Repo>, serialize: seq<seq<(string, string)>> -> string) returns (r: Result<string, PluginError>)
    ensures r == MetadataOf(repos, serialize)
  {
    var data: seq<seq<(string, string)>> := [];
    var i := 0;
    while i < |repos|
      invariant 0 <= i <= |repos|
      invariant Collect(repos[..i], RecordPairs) == Ok(data)
    {
      assert repos[..i + 1][..i] == repos[..i];
      var rec := RecordOf(repos[i]);
      if rec.Err? {
        assert Collect(repos[..i + 1], RecordPairs) == Err(rec.error);
        CollectFailStays(repos, RecordPairs, i + 1);
        return Err(rec.error);
      }
      data := data + [Pairs(rec.value)];
      i := i + 1;
    }
    assert repos[..i] == repos;
    r := Ok(Wrap(serialize(data)));
  }
}
