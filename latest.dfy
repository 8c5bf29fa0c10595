/**
 * The small decision rules of `lastversion.latest` and its neighbours: where a
 * repo specifier's settings come from (a `.yml` file, a `.spec` file or the
 * remote project), the name a `.yml` file gives its project, the `spec_tag`
 * macros of a release, `parse_version`'s filter for arguments that are not
 * versions, and `has_update`'s comparison.
 */
module Latest {
  import opened Wrappers
  import Text
  import opened Versions
  import SpecScan

  // ---------------------------------------------------------------------------
  // Dispatch on the repo specifier
  // ---------------------------------------------------------------------------

  /** Where `latest` takes its `repo_data` from. */
  datatype Source = Remote | YmlFile | SpecFile

  /** The checks on the specifier, in the order `latest` makes them: a local
      `.yml` file is read first, and a `.spec` file would replace it. */
  function SourceOf(repo: string): (s: Source)
    ensures s == SpecFile <==> Text.EndsWith(repo, ".spec")
    ensures s == YmlFile <==> Text.EndsWith(repo, ".yml") && !SpecScan.IsHttpUrl(repo)
  {
    var fromYml := if Text.EndsWith(repo, ".yml") && !SpecScan.IsHttpUrl(repo) then YmlFile else Remote;
    SuffixesExclusive(repo);
    if Text.EndsWith(repo, ".spec") then SpecFile else fromYml
  }

  /** A string that ends with a suffix ends with the suffix's last character. */
  lemma LastCharOfSuffix(s: string, suffix: string)
    requires suffix != []
    ensures Text.EndsWith(s, suffix) ==> s[|s| - 1] == suffix[|suffix| - 1]
  {
  }

  /** No specifier ends with both `.yml` and `.spec`: their last letters differ. */
  lemma SuffixesExclusive(repo: string)
    ensures !(Text.EndsWith(repo, ".yml") && Text.EndsWith(repo, ".spec"))
  {
    LastCharOfSuffix(repo, ".yml");
    LastCharOfSuffix(repo, ".spec");
  }

  /** The `at` hint handed to the holder factory: a `Chart.yaml` URL forces
      the Helm chart holder, any other specifier keeps the caller's hint. */
  function HolderHint(repo: string, at: Option<string>): (r: Option<string>)
    ensures SpecScan.IsHttpUrl(repo) && Text.EndsWith(repo, "Chart.yaml") ==> r == Some("helm_chart")
    ensures !(SpecScan.IsHttpUrl(repo) && Text.EndsWith(repo, "Chart.yaml")) ==> r == at
  {
    if SpecScan.IsHttpUrl(repo) && Text.EndsWith(repo, "Chart.yaml") then Some("helm_chart") else at
  }

  /** A Helm chart URL reads no local file and always goes to the Helm chart
      holder, whatever hint the caller gave. */
  lemma HelmChartUrlIsRemote(repo: string, at: Option<string>)
    requires SpecScan.IsHttpUrl(repo) && Text.EndsWith(repo, "Chart.yaml")
    ensures SourceOf(repo) == Remote
    ensures HolderHint(repo, at) == Some("helm_chart")
  {
    LastCharOfSuffix(repo, "Chart.yaml");
    LastCharOfSuffix(repo, ".spec");
  }

  /** `repo_data.get(key, default)` on string-valued repo data. */
  function Get(data: map<string, string>, key: string, default: string): string {
    if key in data then data[key] else default
  }

  /** The specifier handed to the holder factory: the `repo` the file names,
      and the specifier itself for a remote project or a file without one. */
  function HolderRepo(repo: string, data: map<string, string>): (r: string)
    ensures "repo" in data ==> r == data["repo"]
    ensures "repo" !in data ==> r == repo
  {
    Get(data, "repo", repo)
  }

  // ---------------------------------------------------------------------------
  // The name a `.yml` file gives its project
  // ---------------------------------------------------------------------------

  predicate AllDots(s: string) {
    forall i :: 0 <= i < |s| ==> s[i] == '.'
  }

  /** `os.path.splitext(b)[0]` for a base name `b`: what precedes the last
      dot, unless only dots precede it (a leading dot starts no extension). */
  function Stem(b: string): (r: string)
    ensures r <= b
    ensures r == b || (|r| < |b| && b[|r|] == '.' && !AllDots(r))
    ensures r != b ==> '.' !in b[|r| + 1..]
    ensures r == b ==> forall i :: 0 <= i < |b| && b[i] == '.' && '.' !in b[i + 1..] ==> AllDots(b[..i])
  {
    var ext := Text.AfterLast(b, '.');
    LastDotIsUnique(b, ext);
    if |ext| == |b| then b
    else
      var i := |b| - |ext| - 1;
      if AllDots(b[..i]) then b else b[..i]
  }

  /** The dot before `AfterLast(b, '.')` is the only dot with no dot after it. */
  lemma {:induction false} LastDotIsUnique(b: string, ext: string)
    requires ext == Text.AfterLast(b, '.')
    ensures |ext| < |b| ==> b[|b| - |ext|..] == ext
    ensures forall i :: 0 <= i < |b| && b[i] == '.' && '.' !in b[i + 1..] ==> i == |b| - |ext| - 1
  {
    var k := |b| - |ext| - 1;
    forall i | 0 <= i < |b|
      ensures b[i] == '.' && '.' !in b[i + 1..] ==> i == k
    {
      if i < k {
        assert b[i + 1..][k - i - 1] == b[k];
      } else if i > k {
        assert ext[i - (k + 1)] == b[i];
      }
    }
  }

  /** `os.path.basename(p)`. */
  function BaseName(p: string): string {
    Text.AfterLast(p, '/')
  }

  /** What `get_repo_data_from_yml` makes of the loaded mapping: with a `repo`
      entry, an `nginx-extras` path forces `module_of` to `nginx`, and `name`
      becomes the file's stem, prefixed by `<module_of>-module-` when the data
      has a `module_of`; without a `repo` entry the mapping is returned as is. */
  function YmlRepoData(repo: string, data: map<string, string>): (r: map<string, string>)
    ensures "repo" !in data ==> r == data
    ensures "repo" in data ==> r.Keys == data.Keys + {"name"} + (if Text.Contains(repo, "nginx-extras") then {"module_of"} else {})
    ensures forall k :: k in data && k != "name" && k != "module_of" ==> k in r && r[k] == data[k]
    ensures "repo" in data && Text.Contains(repo, "nginx-extras") ==> r["module_of"] == "nginx"
    ensures "module_of" in data && !Text.Contains(repo, "nginx-extras") ==> r["module_of"] == data["module_of"]
    ensures "repo" in data && "module_of" !in r ==> r["name"] == Stem(BaseName(repo))
    ensures "repo" in data && "module_of" in r ==> r["name"] == r["module_of"] + "-module-" + Stem(BaseName(repo))
  {
    if "repo" !in data then data
    else
      var withModule := if Text.Contains(repo, "nginx-extras") then data["module_of" := "nginx"] else data;
      var stem := Stem(BaseName(repo));
      var name := if "module_of" in withModule then withModule["module_of"] + "-module-" + stem else stem;
      withModule["name" := name]
  }

  /** A file `<dir>/<stem>.yml` names its project after `<stem>`. */
  lemma StemOfYmlFile(dir: string, stem: string)
    requires '/' !in stem && !AllDots(stem)
    ensures BaseName(dir + "/" + stem + ".yml") == stem + ".yml"
    ensures Stem(stem + ".yml") == stem
  {
    BaseNameOfYmlFile(dir, stem);
    StemOfYml(stem);
  }

  lemma {:induction false} BaseNameOfYmlFile(dir: string, stem: string)
    requires '/' !in stem
    ensures BaseName(dir + "/" + stem + ".yml") == stem + ".yml"
  {
    assert '/' !in stem + ".yml" by {
      assert forall i :: 0 <= i < |stem| ==> (stem + ".yml")[i] == stem[i];
    }
    assert dir + "/" + stem + ".yml" == dir + ['/'] + (stem + ".yml");
    Text.AfterLastOfSuffix(dir, '/', stem + ".yml");
  }

  lemma {:induction false} StemOfYml(stem: string)
    requires !AllDots(stem)
    ensures Stem(stem + ".yml") == stem
  {
    assert stem + ".yml" == stem + ['.'] + "yml";
    Text.AfterLastOfSuffix(stem, '.', "yml");
    assert (stem + ".yml")[..|stem|] == stem;
  }

  /** The name of the project a `<dir>/<stem>.yml` file with a `repo` entry describes. */
  lemma YmlProjectName(dir: string, stem: string, data: map<string, string>)
    requires '/' !in stem && !AllDots(stem)
    requires "repo" in data
    ensures var r := YmlRepoData(dir + "/" + stem + ".yml", data);
      && ("module_of" !in r ==> r["name"] == stem)
      && ("module_of" in r ==> r["name"] == r["module_of"] + "-module-" + stem)
  {
    StemOfYmlFile(dir, stem);
  }

  // ---------------------------------------------------------------------------
  // The spec tag macros of a release
  // ---------------------------------------------------------------------------

  /** The macro a spec file names its version by: `%{upstream_version}` for a
      module of another project, `%{version}` otherwise. */
  function VersionMacro(moduleOf: bool): (m: string)
    ensures |m| > 2 && m[0] == '%' && m[1] == '{'
    ensures forall i :: 0 <= i < |m| ==> !Text.IsDigit(m[i])
  {
    if moduleOf then "%{upstream_version}" else "%{version}"
  }

  /** The three tag fields `latest` adds for the JSON output. */
  datatype SpecTags = SpecTags(vPrefix: bool, specTag: string, specTagNoPrefix: string)

  /** `tag.replace(str(version), macro)`. */
  function SpecTag(tag: string, version: Version, moduleOf: bool): string {
    Text.Replace(tag, ToString(version), VersionMacro(moduleOf))
  }

  /** `re.match(r"^v\d", s)`. */
  predicate StartsWithVDigit(s: string) {
    |s| >= 2 && s[0] == 'v' && Text.IsDigit(s[1])
  }

  /** `spec_tag_no_prefix`: every leading `v` goes when the spec tag starts
      with `v` and the macro or with `v` and a digit; otherwise nothing does. */
  function NoPrefix(specTag: string, macro: string): (r: string)
    ensures Text.EndsWith(specTag, r)
    ensures r != specTag ==> specTag[0] == 'v' && (Text.StartsWith(specTag, "v" + macro) || StartsWithVDigit(specTag))
    ensures Text.StartsWith(specTag, "v" + macro) || StartsWithVDigit(specTag) ==>
      (r == [] || r[0] != 'v') && forall i :: 0 <= i < |specTag| - |r| ==> specTag[i] == 'v'
    ensures !(Text.StartsWith(specTag, "v" + macro) || StartsWithVDigit(specTag)) ==> r == specTag
  {
    if Text.StartsWith(specTag, "v" + macro) || StartsWithVDigit(specTag) then Text.LStripChar(specTag, 'v') else specTag
  }

  /** The tag fields of a release with tag `tag` and version `version`. */
  function ReleaseTags(tag: string, version: Version, moduleOf: bool): (t: SpecTags)
    ensures t.vPrefix <==> Text.StartsWith(tag, "v")
    ensures '%' !in tag && version.release != [] ==>
      Text.Replace(t.specTag, VersionMacro(moduleOf), ToString(version)) == tag
    ensures version.release != [] ==> !Text.Contains(t.specTag, ToString(version))
    ensures Text.EndsWith(t.specTag, t.specTagNoPrefix)
    ensures Text.StartsWith(t.specTag, "v" + VersionMacro(moduleOf)) || StartsWithVDigit(t.specTag) ==>
      && (t.specTagNoPrefix == [] || t.specTagNoPrefix[0] != 'v')
      && forall i :: 0 <= i < |t.specTag| - |t.specTagNoPrefix| ==> t.specTag[i] == 'v'
    ensures !(Text.StartsWith(t.specTag, "v" + VersionMacro(moduleOf)) || StartsWithVDigit(t.specTag)) ==>
      t.specTagNoPrefix == t.specTag
  {
    var specTag := SpecTag(tag, version, moduleOf);
    var t := SpecTags(Text.StartsWith(tag, "v"), specTag, NoPrefix(specTag, VersionMacro(moduleOf)));
    if version.release == [] then t
    else
      SpecTagReplacesEveryOccurrence(tag, version, moduleOf);
      if '%' !in tag then
        SpecTagExpandsToTag(tag, version, moduleOf);
        t
      else
        t
  }

  /** Expanding the macro of the spec tag gives the release tag back: a tag
      without `%` is recovered by putting the version where the macro is. */
  lemma SpecTagExpandsToTag(tag: string, version: Version, moduleOf: bool)
    requires version.release != []
    requires '%' !in tag
    ensures Text.Replace(SpecTag(tag, version, moduleOf), VersionMacro(moduleOf), ToString(version)) == tag
  {
    Text.ReplaceRoundTrip(tag, ToString(version), VersionMacro(moduleOf));
  }

  /** No occurrence of the version string survives in the spec tag: the
      replacement starts with `%`, which a version string never holds, and the
      version string starts with a digit, which no macro holds. */
  lemma SpecTagReplacesEveryOccurrence(tag: string, version: Version, moduleOf: bool)
    requires version.release != []
    ensures !Text.Contains(SpecTag(tag, version, moduleOf), ToString(version))
  {
    var v := ToString(version);
    var m := VersionMacro(moduleOf);
    assert '%' !in v by {
      assert forall i :: 0 <= i < |v| ==> IsVersionChar(v[i]);
    }
    assert v[0] !in m by {
      assert Text.IsDigit(v[0]);
    }
    Text.NoPatternLeft(tag, v, m);
  }

  /** The common `v1.2.3` tag: its spec tag is `v` followed by the macro, and
      its prefix-free spec tag is the macro alone. */
  lemma {:induction false} VTag(version: Version, moduleOf: bool)
    requires version.release != []
    ensures var t := ReleaseTags("v" + ToString(version), version, moduleOf);
      && t.vPrefix
      && t.specTag == "v" + VersionMacro(moduleOf)
      && t.specTagNoPrefix == VersionMacro(moduleOf)
  {
    var s := ToString(version);
    var m := VersionMacro(moduleOf);
    var tag := "v" + s;
    assert !Text.StartsWith(tag, s) by {
      assert tag[0] == 'v';
    }
    assert tag[1..] == s;
    Text.ReplaceWhole(s, m);
    assert Text.Replace(tag, s, m) == "v" + m;
    var t := "v" + m;
    assert Text.StartsWith(t, "v" + m);
    assert t[1..] == m;
    assert Text.LStripChar(t, 'v') == Text.LStripChar(m, 'v');
  }

  /** A tag with no `v` before its version keeps its spec tag whole. */
  lemma PlainTag(version: Version, moduleOf: bool)
    requires version.release != []
    ensures var t := ReleaseTags(ToString(version), version, moduleOf);
      && !t.vPrefix
      && t.specTag == VersionMacro(moduleOf)
      && t.specTagNoPrefix == VersionMacro(moduleOf)
  {
    Text.ReplaceWhole(ToString(version), VersionMacro(moduleOf));
  }

  // ---------------------------------------------------------------------------
  // parse_version and has_update
  // ---------------------------------------------------------------------------

  /** An argument `parse_version` refuses before sanitizing: a URL, or a
      `owner/name` repo specifier (a slash and no space). */
  predicate LooksLikeRepo(tag: string) {
    SpecScan.IsHttpUrl(tag) || ('/' in tag && ' ' !in tag)
  }

  /** `parse_version`: `None` stands for the `False` it returns. */
  function ParseVersion(tag: string, sanitize: Sanitizer): (r: Option<Version>)
    ensures LooksLikeRepo(tag) ==> r.None?
    ensures !LooksLikeRepo(tag) ==> r == sanitize(tag, true, None)
  {
    if SpecScan.IsHttpUrl(tag) then None
    else if '/' in tag && ' ' !in tag then None
    else sanitize(tag, true, None)
  }

  /** A repo specifier given where a version may stand is never taken for a
      version, whatever the sanitizer would make of it. */
  lemma RepoSpecifierIsNoVersion(owner: string, name: string, sanitize: Sanitizer)
    requires ' ' !in owner && ' ' !in name
    ensures ParseVersion(owner + "/" + name, sanitize).None?
  {
    var t := owner + "/" + name;
    assert t[|owner|] == '/';
    assert ' ' !in t by {
      assert forall i :: 0 <= i < |t| ==> t[i] == (if i < |owner| then owner[i] else if i == |owner| then '/' else name[i - |owner| - 1]);
    }
  }

  /** `Version(current_version)` raising `InvalidVersion`. */
  datatype UpdateError = InvalidCurrentVersion

  /** `has_update` given the `latest` lookup's result: the latest version when
      it is strictly newer than the current one, `None` (the `False` it
      returns) otherwise. The current version is parsed only when a latest
      version was found, so only then can it fail. */
  function HasUpdate(latest: Option<Version>, current: string, parse: Parser): (r: Result<Option<Version>, UpdateError>)
    ensures r.Err? <==> latest.Some? && parse(current).None?
    ensures r.Ok? && r.value.Some? <==> latest.Some? && parse(current).Some? && Less(parse(current).value, latest.value)
    ensures r.Ok? && r.value.Some? ==> r.value == latest
  {
    match latest
    case None => Ok(None)
    case Some(v) =>
      match parse(current)
      case None => Err(InvalidCurrentVersion)
      case Some(c) => if Less(c, v) then Ok(Some(v)) else Ok(None)
  }

  /** The version already in use is never an update to itself. */
  lemma NoUpdateToSameVersion(v: Version, current: string, parse: Parser)
    requires parse(current) == Some(v)
    ensures HasUpdate(Some(v), current, parse) == Ok(None)
  {
    LessIsStrictTotalOrder(v, v, v);
  }

  /** Updates only go one way: if `b` is an update over `a`, then `a` is no
      update over `b`. */
  lemma UpdatesAreOneWay(a: Version, b: Version, textA: string, textB: string, parse: Parser)
    requires parse(textA) == Some(a) && parse(textB) == Some(b)
    requires HasUpdate(Some(b), textA, parse) == Ok(Some(b))
    ensures HasUpdate(Some(a), textB, parse) == Ok(None)
  {
    LessIsStrictTotalOrder(a, b, a);
  }

  /** Between two distinct parsed versions, exactly one is an update over the other. */
  lemma DistinctVersionsHaveOneUpdate(a: Version, b: Version, textA: string, textB: string, parse: Parser)
    requires parse(textA) == Some(a) && parse(textB) == Some(b) && a != b
    ensures HasUpdate(Some(b), textA, parse).Ok? && HasUpdate(Some(a), textB, parse).Ok?
    ensures HasUpdate(Some(b), textA, parse).value.Some? != HasUpdate(Some(a), textB, parse).value.Some?
  {
    LessIsStrictTotalOrder(a, b, a);
  }
}
