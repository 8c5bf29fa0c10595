/**
 * Reading lastversion's settings out of an RPM spec file
 * (`get_repo_data_from_spec`) and choosing, among a spec's URLs, the one a
 * project holder can serve (`find_preferred_url`).
 *
 * The spec file arrives as its lines, each with its line end, as
 * `readlines()` gives them. `shlex.split` is reduced to splitting on
 * whitespace; URL parsing and the holder registry are parameters.
 */
module SpecScan {
  import opened Wrappers
  import Text
  import opened Versions

  /** `urlparse(url).hostname`: `None` when the URL has no network location. */
  type HostnameOf = string -> Option<string>

  /** Some holder's `DEFAULT_HOSTNAME` is set and equals the URL's hostname.
      `holders` lists the holders' default host names, `""` for a holder that has none. */
  predicate IsKnownHost(url: string, holders: seq<string>, hostnameOf: HostnameOf) {
    exists h :: h in holders && h != "" && hostnameOf(url) == Some(h)
  }

  /** The position of the first URL with a known host. */
  function FirstKnown(urls: seq<string>, holders: seq<string>, hostnameOf: HostnameOf): (r: Option<nat>)
    ensures r.Some? ==> r.value < |urls| && IsKnownHost(urls[r.value], holders, hostnameOf)
    ensures r.Some? ==> forall j :: 0 <= j < r.value ==> !IsKnownHost(urls[j], holders, hostnameOf)
    ensures r.None? ==> forall j :: 0 <= j < |urls| ==> !IsKnownHost(urls[j], holders, hostnameOf)
    decreases |urls|
  {
    if urls == [] then None
    else if IsKnownHost(urls[0], holders, hostnameOf) then Some(0)
    else
      match FirstKnown(urls[1..], holders, hostnameOf)
      case None => None
      case Some(i) => Some(i + 1)
  }

  /** The URL `find_preferred_url` returns: the first one whose host a holder
      knows, failing that the first one, and `None` for no URLs at all. */
  function PreferredUrl(urls: seq<string>, holders: seq<string>, hostnameOf: HostnameOf): (r: Option<string>)
    ensures r.None? <==> urls == []
    ensures r.Some? ==> r.value in urls
    ensures forall i ::
              && 0 <= i < |urls|
              && IsKnownHost(urls[i], holders, hostnameOf)
              && (forall j :: 0 <= j < i ==> !IsKnownHost(urls[j], holders, hostnameOf))
              ==> r == Some(urls[i])
    ensures (forall i :: 0 <= i < |urls| ==> !IsKnownHost(urls[i], holders, hostnameOf)) && urls != [] ==>
      r == Some(urls[0])
  {
    match FirstKnown(urls, holders, hostnameOf)
    case Some(i) => Some(urls[i])
    case None => if urls == [] then None else Some(urls[0])
  }

  /** `find_preferred_url`: for each URL, for each holder, return the URL on the
      first match; after the loops, the first URL if there is one. */
  method FindPreferredUrl(urls: seq<string>, holders: seq<string>, hostnameOf: HostnameOf)
    returns (r: Option<string>)
    ensures r == PreferredUrl(urls, holders, hostnameOf)
  {
    for i := 0 to |urls|
      invariant forall k :: 0 <= k < i ==> !IsKnownHost(urls[k], holders, hostnameOf)
    {
      var hostname := hostnameOf(urls[i]);
      for m := 0 to |holders|
        invariant forall n :: 0 <= n < m ==> !(holders[n] != "" && hostname == Some(holders[n]))
      {
        if holders[m] != "" && Some(holders[m]) == hostname {
          return Some(urls[i]);
        }
      }
    }
    return if |urls| > 0 then Some(urls[0]) else None;
  }

  /** Which branch of the scan's `if`/`elif` chain a line takes. */
  datatype LineKind =
    | LastversionRepo | UpstreamGithub | UpstreamName | NameTag | UrlTag | Source0Tag
    | UpstreamVersion | VersionTag | LastversionOnly | LastversionHavingAsset | LastversionMajor
    | Other

  /** The first prefix of the chain that the line starts with. */
  function Classify(line: string): LineKind {
    if Text.StartsWith(line, "%global lastversion_repo") then LastversionRepo
    else if Text.StartsWith(line, "%global upstream_github") then UpstreamGithub
    else if Text.StartsWith(line, "%global upstream_name") then UpstreamName
    else if Text.StartsWith(line, "Name:") then NameTag
    else if Text.StartsWith(line, "URL:") then UrlTag
    else if Text.StartsWith(line, "Source0:") then Source0Tag
    else if Text.StartsWith(line, "%global upstream_version ") then UpstreamVersion
    else if Text.StartsWith(line, "Version:") then VersionTag
    else if Text.StartsWith(line, "%global lastversion_only") then LastversionOnly
    else if Text.StartsWith(line, "%global lastversion_having_asset") then LastversionHavingAsset
    else if Text.StartsWith(line, "%global lastversion_major") then LastversionMajor
    else Other
  }

  lemma ClassifyVersionTag(line: string)
    requires |line| >= 8 && line[..8] == "Version:"
    ensures Classify(line) == VersionTag
  {
    assert line[0] == 'V';
  }

  lemma ClassifyUpstreamVersion(line: string)
    requires |line| >= 25 && line[..25] == "%global upstream_version "
    ensures Classify(line) == UpstreamVersion
  {
    assert line[0] == '%' && line[8] == 'u' && line[17] == 'v';
  }

  /** `line.split(key)[1].strip()` for a line that starts with `key`. */
  function TagValue(line: string, key: string): string
    requires key != [] && Text.StartsWith(line, key)
  {
    Text.Strip(Text.Before(line[|key|..], key))
  }

  /** `shlex.split(line)[2].strip()`; `None` where Python raises `IndexError`. */
  function MacroValue(line: string): (v: Option<string>)
    ensures v.Some? ==> v.value != [] && Text.NoSpace(v.value)
  {
    var fields := Text.Fields(line);
    if |fields| >= 3 then Some(fields[2]) else None
  }

  /** The macro's value is the third whitespace-separated field, and there is
      none, Python's `IndexError`, exactly when the line has fewer than three. */
  lemma MacroValueIsThirdField(line: string)
    ensures MacroValue(line).None? <==> |Text.Fields(line)| < 3
    ensures MacroValue(line).Some? ==> MacroValue(line).value == Text.Fields(line)[2]
  {
  }

  /** The value a classified line carries. */
  function LineValue(line: string): Option<string> {
    match Classify(line)
    case NameTag => Some(TagValue(line, "Name:"))
    case UrlTag => Some(TagValue(line, "URL:"))
    case Source0Tag => Some(TagValue(line, "Source0:"))
    case VersionTag => Some(TagValue(line, "Version:"))
    case Other => None
    case _ => MacroValue(line)
  }

  predicate IsHttpUrl(s: string) {
    Text.StartsWith(s, "https://") || Text.StartsWith(s, "http://")
  }

  /** Python truthiness of an optional string. */
  predicate Truthy(o: Option<string>) {
    o.Some? && o.value != ""
  }

  /** The scan's local variables and the `repo_data` entries it fills. */
  datatype ScanState = ScanState(
    name: Option<string>,
    upstreamGithub: Option<string>,
    upstreamName: Option<string>,
    currentVersion: Option<string>,
    specRepo: Option<string>,
    specUrls: seq<string>,
    moduleOf: bool,
    only: Option<string>,
    havingAsset: Option<string>,
    major: Option<string>)

  const Initial := ScanState(None, None, None, None, None, [], false, None, None, None)

  /** Why the scan ends without a result: an exception, or `sys.exit(1)` after a critical log. */
  datatype SpecError =
    | MissingMacroValue(line: string)
    | NoCurrentVersion
    | InvalidCurrentVersion(text: string)
    | NoRepo

  /** What a line of the given kind with value `v` does to the state. */
  function Apply(st: ScanState, kind: LineKind, v: string): ScanState {
    match kind
    case LastversionRepo => st.(specRepo := Some(v))
    case UpstreamGithub => st.(upstreamGithub := Some(v))
    case UpstreamName => st.(upstreamName := Some(v))
    case NameTag => st.(name := Some(v))
    case UrlTag => st.(specUrls := st.specUrls + [v])
    case Source0Tag => if IsHttpUrl(v) then st.(specUrls := st.specUrls + [v]) else st
    case UpstreamVersion => st.(currentVersion := Some(v), moduleOf := true)
    case VersionTag => if Truthy(st.currentVersion) then st else st.(currentVersion := Some(v))
    case LastversionOnly => st.(only := Some(v))
    case LastversionHavingAsset => st.(havingAsset := Some(v))
    case LastversionMajor => st.(major := Some(v))
    case Other => st
  }

  /** One turn of the loop over the lines. */
  function Step(st: ScanState, line: string): Result<ScanState, SpecError> {
    var kind := Classify(line);
    if kind.Other? then Ok(st)
    else
      match LineValue(line)
      case None => Err(MissingMacroValue(line))
      case Some(v) => Ok(Apply(st, kind, v))
  }

  /** The state after the loop has seen all of `lines`. */
  function Scan(lines: seq<string>): Result<ScanState, SpecError>
    decreases |lines|
  {
    if lines == [] then Ok(Initial)
    else
      match Scan(lines[..|lines| - 1])
      case Err(e) => Err(e)
      case Ok(st) => Step(st, lines[|lines| - 1])
  }

  /** What the scan returns. */
  datatype RepoData = RepoData(
    currentVersion: Option<Version>,
    moduleOf: bool,
    only: Option<string>,
    havingAsset: Option<string>,
    major: Option<string>,
    name: Option<string>,
    specName: string,
    repo: string)

  /** Python's `f"{x}"` of an optional string. */
  function PyStr(o: Option<string>): string {
    if o.None? then "None" else o.value
  }

  /** The checks and choices after the loop. */
  function Finish(st: ScanState, parse: Parser, holders: seq<string>, hostnameOf: HostnameOf)
    : Result<RepoData, SpecError>
  {
    if !Truthy(st.currentVersion) then Err(NoCurrentVersion)
    else
      var text := st.currentVersion.value;
      var parsed := if text != "x" then parse(text) else None;
      if text != "x" && parsed.None? then Err(InvalidCurrentVersion(text))
      else
        var name := if Truthy(st.upstreamName) then st.upstreamName else st.name;
        var specName := if Truthy(st.upstreamName) then "%{upstream_name}" else "%{name}";
        var repo :=
          if Truthy(st.upstreamGithub) then Some(st.upstreamGithub.value + "/" + PyStr(name))
          else if Truthy(st.specRepo) then st.specRepo
          else PreferredUrl(st.specUrls, holders, hostnameOf);
        if !Truthy(repo) then Err(NoRepo)
        else Ok(RepoData(parsed, st.moduleOf, st.only, st.havingAsset, st.major, name, specName, repo.value))
  }

  /** What `get_repo_data_from_spec` returns for a spec file with these lines. */
  function SpecRepoData(lines: seq<string>, parse: Parser, holders: seq<string>, hostnameOf: HostnameOf)
    : Result<RepoData, SpecError>
  {
    match Scan(lines)
    case Err(e) => Err(e)
    case Ok(st) => Finish(st, parse, holders, hostnameOf)
  }

  /** Once the scan fails, reading more lines does not change the failure. */
  lemma {:induction false} ScanErrorPersists(lines: seq<string>, i: nat)
    requires i <= |lines| && Scan(lines[..i]).Err?
    ensures Scan(lines) == Scan(lines[..i])
    decreases |lines|
  {
    if i < |lines| {
      var pre := lines[..|lines| - 1];
      assert pre[..i] == lines[..i];
      ScanErrorPersists(pre, i);
    } else {
      assert lines[..i] == lines;
    }
  }

  /** Macro lines carry a whitespace-free, non-empty value when they carry one. */
  predicate IsMacroKind(kind: LineKind) {
    || kind.LastversionRepo? || kind.UpstreamGithub? || kind.UpstreamName? || kind.UpstreamVersion?
    || kind.LastversionOnly? || kind.LastversionHavingAsset? || kind.LastversionMajor?
  }

  /** The value of the last line of the given kind; `None` when there is none. */
  function LastValue(lines: seq<string>, kind: LineKind): (r: Option<string>)
    ensures IsMacroKind(kind) && r.Some? ==> r.value != ""
    decreases |lines|
  {
    if lines == [] then None
    else if Classify(lines[|lines| - 1]) == kind then LineValue(lines[|lines| - 1])
    else LastValue(lines[..|lines| - 1], kind)
  }

  /** The kinds of line where a later line overrides an earlier one. */
  predicate LastOneWins(kind: LineKind) {
    (IsMacroKind(kind) && !kind.UpstreamVersion?) || kind.NameTag?
  }

  /** The setting a last-one-wins kind of line feeds. */
  function Setting(st: ScanState, kind: LineKind): Option<string> {
    match kind
    case LastversionRepo => st.specRepo
    case UpstreamGithub => st.upstreamGithub
    case UpstreamName => st.upstreamName
    case NameTag => st.name
    case LastversionOnly => st.only
    case LastversionHavingAsset => st.havingAsset
    case LastversionMajor => st.major
    case _ => None
  }

  /** `lastversion_repo`, `upstream_github`, `upstream_name`, `Name:` and the
      `lastversion_only`/`having_asset`/`major` settings come from the last line
      of their kind. */
  lemma {:induction false} ScanKeepsLastValue(lines: seq<string>, kind: LineKind)
    requires LastOneWins(kind) && Scan(lines).Ok?
    ensures Setting(Scan(lines).value, kind) == LastValue(lines, kind)
    decreases |lines|
  {
    if lines != [] {
      var n := |lines| - 1;
      assert Scan(lines[..n]).Ok?;
      ScanKeepsLastValue(lines[..n], kind);
      SettingStep(Scan(lines[..n]).value, lines[n], kind);
    }
  }

  /** A line of a last-one-wins kind replaces its setting; other lines leave it alone. */
  lemma SettingStep(st: ScanState, line: string, kind: LineKind)
    requires LastOneWins(kind) && Step(st, line).Ok?
    ensures Setting(Step(st, line).value, kind) == if Classify(line) == kind then LineValue(line) else Setting(st, kind)
  {
    StepOfLine(st, line);
    if Classify(line) != Other {
      ApplySetting(st, Classify(line), LineValue(line).value, kind);
    }
  }

  /** One line's turn of the loop in terms of its kind and value alone. */
  lemma StepOfLine(st: ScanState, line: string)
    requires Step(st, line).Ok?
    ensures Classify(line) == Other ==> Step(st, line).value == st
    ensures Classify(line) != Other ==>
      LineValue(line).Some? && Step(st, line).value == Apply(st, Classify(line), LineValue(line).value)
  {
  }

  /** A line of one kind assigns only the setting of that kind. */
  lemma ApplySetting(st: ScanState, lineKind: LineKind, v: string, kind: LineKind)
    requires LastOneWins(kind) && lineKind != Other
    ensures Setting(Apply(st, lineKind, v), kind) == if lineKind == kind then Some(v) else Setting(st, kind)
  {
  }

  /** The URL a line contributes: a `URL:` value, or a `Source0:` value that
      starts with `http://` or `https://`. */
  function UrlOf(line: string): (u: Option<string>)
    ensures u.Some? ==> Classify(line).UrlTag? || (Classify(line).Source0Tag? && IsHttpUrl(u.value))
  {
    match Classify(line)
    case UrlTag => Some(TagValue(line, "URL:"))
    case Source0Tag =>
      var source0 := TagValue(line, "Source0:");
      if IsHttpUrl(source0) then Some(source0) else None
    case _ => None
  }

  /** The URLs of the spec, in the order of their lines. */
  function SpecUrls(lines: seq<string>): seq<string>
    decreases |lines|
  {
    if lines == [] then []
    else
      var u := UrlOf(lines[|lines| - 1]);
      SpecUrls(lines[..|lines| - 1]) + (if u.Some? then [u.value] else [])
  }

  lemma {:induction false} ScanCollectsUrls(lines: seq<string>)
    requires Scan(lines).Ok?
    ensures Scan(lines).value.specUrls == SpecUrls(lines)
    decreases |lines|
  {
    if lines != [] {
      ScanCollectsUrls(lines[..|lines| - 1]);
    }
  }

  /** A `Source0:` line whose value is not an http(s) URL has no effect. */
  lemma Source0WithoutSchemeIgnored(lines: seq<string>, line: string)
    requires Classify(line) == Source0Tag && UrlOf(line).None?
    ensures Scan(lines + [line]) == Scan(lines)
  {
    assert (lines + [line])[..|lines|] == lines;
  }

  /** Some line of `lines` is of the given kind. */
  predicate HasKind(lines: seq<string>, kind: LineKind)
    decreases |lines|
  {
    lines != [] && (Classify(lines[|lines| - 1]) == kind || HasKind(lines[..|lines| - 1], kind))
  }

  /** `module_of` is set exactly when the spec has an `upstream_version` macro. */
  lemma {:induction false} ModuleOfMarksUpstreamVersion(lines: seq<string>)
    requires Scan(lines).Ok?
    ensures Scan(lines).value.moduleOf == HasKind(lines, UpstreamVersion)
    decreases |lines|
  {
    if lines != [] {
      ModuleOfMarksUpstreamVersion(lines[..|lines| - 1]);
    }
  }

  /** The value a `Version:` tag line offers, when it is not empty. */
  function VersionTagValue(line: string): (r: Option<string>)
    ensures r.Some? ==> Classify(line) == VersionTag && r == LineValue(line) && r.value != ""
    ensures r.None? ==> Classify(line) != VersionTag || LineValue(line) == Some("")
  {
    if Classify(line) == VersionTag && LineValue(line) != Some("") then LineValue(line) else None
  }

  /** The value of the first `Version:` tag whose value is not empty: a later
      line counts only when no earlier one offered a value. */
  function FirstVersionTag(lines: seq<string>): (r: Option<string>)
    ensures r.Some? ==> r.value != ""
    decreases |lines|
  {
    if lines == [] then None
    else
      var earlier := FirstVersionTag(lines[..|lines| - 1]);
      if earlier.Some? then earlier else VersionTagValue(lines[|lines| - 1])
  }

  /** What one line does to the current version. */
  lemma CurrentVersionStep(st: ScanState, line: string)
    requires Step(st, line).Ok?
    ensures Classify(line) != Other ==> LineValue(line).Some?
    ensures var cv := Step(st, line).value.currentVersion;
      && (Classify(line) == UpstreamVersion ==> cv == LineValue(line) && Truthy(cv))
      && (Classify(line) == VersionTag && !Truthy(st.currentVersion) ==> cv == LineValue(line))
      && (Classify(line) != UpstreamVersion && (Classify(line) != VersionTag || Truthy(st.currentVersion)) ==>
            cv == st.currentVersion)
  {
    StepOfLine(st, line);
    if Classify(line) != Other {
      UpstreamVersionValue(line);
      ApplyCurrentVersion(st, Classify(line), LineValue(line).value);
    }
  }

  /** An `upstream_version` macro's value is its non-empty third field. */
  lemma UpstreamVersionValue(line: string)
    ensures Classify(line) == UpstreamVersion ==> LineValue(line) == MacroValue(line)
    ensures Classify(line) == UpstreamVersion && LineValue(line).Some? ==> LineValue(line).value != ""
  {
  }

  /** The assignment to the current version each kind of line makes. */
  lemma ApplyCurrentVersion(st: ScanState, kind: LineKind, v: string)
    ensures kind == UpstreamVersion ==> Apply(st, kind, v).currentVersion == Some(v)
    ensures kind == VersionTag && !Truthy(st.currentVersion) ==> Apply(st, kind, v).currentVersion == Some(v)
    ensures kind != UpstreamVersion && (kind != VersionTag || Truthy(st.currentVersion)) ==>
      Apply(st, kind, v).currentVersion == st.currentVersion
  {
  }

  /** With an `upstream_version` macro, its last value is the current version. */
  lemma {:induction false} UpstreamVersionOverrides(lines: seq<string>)
    requires Scan(lines).Ok? && HasKind(lines, UpstreamVersion)
    ensures Truthy(Scan(lines).value.currentVersion)
    ensures Scan(lines).value.currentVersion == LastValue(lines, UpstreamVersion)
    decreases |lines|
  {
    var n := |lines| - 1;
    var st := Scan(lines[..n]).value;
    CurrentVersionStep(st, lines[n]);
    if Classify(lines[n]) != UpstreamVersion {
      UpstreamVersionOverrides(lines[..n]);
    }
  }

  /** Without an `upstream_version` macro, the first `Version:` value is the current version. */
  lemma {:induction false} FirstVersionTagFallback(lines: seq<string>)
    requires Scan(lines).Ok? && !HasKind(lines, UpstreamVersion)
    ensures var cv := Scan(lines).value.currentVersion;
      if Truthy(cv) then cv == FirstVersionTag(lines) else FirstVersionTag(lines).None?
    decreases |lines|
  {
    if lines != [] {
      var n := |lines| - 1;
      var line := lines[n];
      assert Scan(lines[..n]).Ok?;
      var st := Scan(lines[..n]).value;
      assert Scan(lines) == Step(st, line);
      assert !HasKind(lines[..n], UpstreamVersion) && Classify(line) != UpstreamVersion;
      FirstVersionTagFallback(lines[..n]);
      CurrentVersionStep(st, line);
    }
  }

  /** The last `%global upstream_version` macro sets the current version;
      without one, the first `Version:` tag with a value does, and later ones
      are ignored. */
  lemma CurrentVersionSource(lines: seq<string>)
    requires Scan(lines).Ok?
    ensures var cv := Scan(lines).value.currentVersion;
      && (HasKind(lines, UpstreamVersion) ==> Truthy(cv) && cv == LastValue(lines, UpstreamVersion))
      && (!HasKind(lines, UpstreamVersion) ==> (Truthy(cv) <==> FirstVersionTag(lines).Some?))
      && (!HasKind(lines, UpstreamVersion) && Truthy(cv) ==> cv == FirstVersionTag(lines))
  {
    if HasKind(lines, UpstreamVersion) {
      UpstreamVersionOverrides(lines);
    } else {
      FirstVersionTagFallback(lines);
    }
  }

  /** A spec without any source of a current version is rejected. */
  lemma MissingVersionFails(lines: seq<string>, parse: Parser, holders: seq<string>, hostnameOf: HostnameOf)
    requires !HasKind(lines, UpstreamVersion) && FirstVersionTag(lines).None?
    ensures SpecRepoData(lines, parse, holders, hostnameOf).Err?
    ensures Scan(lines).Ok? ==> SpecRepoData(lines, parse, holders, hostnameOf) == Err(NoCurrentVersion)
  {
    if Scan(lines).Ok? {
      CurrentVersionSource(lines);
    }
  }

  /** The current version is that of the found text, and absent for the text `x`. */
  lemma CurrentVersionOfText(lines: seq<string>, parse: Parser, holders: seq<string>, hostnameOf: HostnameOf)
    requires SpecRepoData(lines, parse, holders, hostnameOf).Ok?
    ensures Scan(lines).Ok? && Truthy(Scan(lines).value.currentVersion)
    ensures var text := Scan(lines).value.currentVersion.value;
      var current := SpecRepoData(lines, parse, holders, hostnameOf).value.currentVersion;
      (text == "x" ==> current.None?) && (text != "x" ==> current.Some? && current == parse(text))
  {
  }

  /** The name is `upstream_name` if set, else the `Name:` tag. */
  lemma NamePrecedence(lines: seq<string>, parse: Parser, holders: seq<string>, hostnameOf: HostnameOf)
    requires SpecRepoData(lines, parse, holders, hostnameOf).Ok?
    ensures var d := SpecRepoData(lines, parse, holders, hostnameOf).value;
      var upstreamName := LastValue(lines, UpstreamName);
      && d.name == (if upstreamName.Some? then upstreamName else LastValue(lines, NameTag))
      && d.specName == (if upstreamName.Some? then "%{upstream_name}" else "%{name}")
  {
    ScanKeepsLastValue(lines, UpstreamName);
    ScanKeepsLastValue(lines, NameTag);
  }

  /** The repo is `upstream_github/name` if `upstream_github` is set, else
      `lastversion_repo`, else the preferred URL among the spec's URLs. */
  lemma RepoPrecedence(lines: seq<string>, parse: Parser, holders: seq<string>, hostnameOf: HostnameOf)
    requires SpecRepoData(lines, parse, holders, hostnameOf).Ok?
    ensures var d := SpecRepoData(lines, parse, holders, hostnameOf).value;
      var github := LastValue(lines, UpstreamGithub);
      var explicit := LastValue(lines, LastversionRepo);
      && (github.Some? ==> d.repo == github.value + "/" + PyStr(d.name))
      && (github.None? && explicit.Some? ==> d.repo == explicit.value)
      && (github.None? && explicit.None? ==> Some(d.repo) == PreferredUrl(SpecUrls(lines), holders, hostnameOf))
  {
    ScanKeepsLastValue(lines, UpstreamGithub);
    ScanKeepsLastValue(lines, LastversionRepo);
    ScanCollectsUrls(lines);
  }

  /** The `lastversion_only`, `lastversion_having_asset` or `lastversion_major`
      entry of the result. */
  function Filter(d: RepoData, kind: LineKind): Option<string> {
    match kind
    case LastversionOnly => d.only
    case LastversionHavingAsset => d.havingAsset
    case LastversionMajor => d.major
    case _ => None
  }

  /** `only`, `having_asset` and `major` are the last values of their macros. */
  lemma FiltersFromLastMacro(lines: seq<string>, kind: LineKind, parse: Parser, holders: seq<string>, hostnameOf: HostnameOf)
    requires kind.LastversionOnly? || kind.LastversionHavingAsset? || kind.LastversionMajor?
    requires SpecRepoData(lines, parse, holders, hostnameOf).Ok?
    ensures Filter(SpecRepoData(lines, parse, holders, hostnameOf).value, kind) == LastValue(lines, kind)
  {
    ScanKeepsLastValue(lines, kind);
  }

  /** The loop of `get_repo_data_from_spec` over the spec's lines. */
  method ScanLines(lines: seq<string>) returns (r: Result<ScanState, SpecError>)
    ensures r == Scan(lines)
  {
    var st := Initial;
    for i := 0 to |lines|
      invariant Scan(lines[..i]) == Ok(st)
    {
      assert lines[..i + 1][..i] == lines[..i];
      var next := Step(st, lines[i]);
      if next.Err? {
        ScanErrorPersists(lines, i + 1);
        return Err(next.error);
      }
      st := next.value;
    }
    assert lines[..|lines|] == lines;
    return Ok(st);
  }

  /** `get_repo_data_from_spec`. */
  method GetRepoDataFromSpec(lines: seq<string>, parse: Parser, holders: seq<string>, hostnameOf: HostnameOf)
    returns (r: Result<RepoData, SpecError>)
    ensures r == SpecRepoData(lines, parse, holders, hostnameOf)
  {
    var scanned := ScanLines(lines);
    if scanned.Err? {
      return Err(scanned.error);
    }
    var st := scanned.value;
    if !Truthy(st.currentVersion) {
      return Err(NoCurrentVersion);
    }
    var parsed: Option<Version> := None;
    if st.currentVersion.value != "x" {
      parsed := parse(st.currentVersion.value);
      if parsed.None? {
        return Err(InvalidCurrentVersion(st.currentVersion.value));
      }
    }
    var name := st.name;
    var specName := "%{name}";
    if Truthy(st.upstreamName) {
      name := st.upstreamName;
      specName := "%{upstream_name}";
    }
    var repo: Option<string>;
    if Truthy(st.upstreamGithub) {
      repo := Some(st.upstreamGithub.value + "/" + PyStr(name));
    } else if Truthy(st.specRepo) {
      repo := st.specRepo;
    } else {
      repo := FindPreferredUrl(st.specUrls, holders, hostnameOf);
    }
    if !Truthy(repo) {
      return Err(NoRepo);
    }
    r := Ok(RepoData(parsed, st.moduleOf, st.only, st.havingAsset, st.major, name, specName, repo.value));
  }
}
