# lastversion, modelled in Dafny

lastversion finds the latest release of a software project. It looks the project up on a hosting
site, reduces the release tags to versions and compares them. It can also bring an RPM spec file up to
date with a newer release, and install a release's assets. This project models the
deterministic core of that work. The model is written in Dafny, and the properties the code promises
are proved about it.

- **The Wikipedia holder** (`WikipediaRepoSession`). `remove_words` cleans a release title into a tag.
  It splits on single spaces, turns `devel`/`test`/`dev` into `dev0` and a whole `p<digits>` token into
  `post<digits>`, and drops purely alphabetic tokens. The model has a loop method proved against a
  specification function. Lemmas cover the token classes, order preservation, the token count and
  idempotence. `get_latest` picks the first "latest release"/"stable release" row of the infobox and cuts
  the cleaned title at its first `/`. The infobox arrives as a list of (caption, data) links.
- **Reading a spec file** (`SpecScan`). `get_repo_data_from_spec` folds the spec's lines into the repo
  data. The current version comes from the last `%global upstream_version`, else the first `Version:` line
  whose value is non-empty. The name
  comes from `upstream_name`, else `Name:`. The repo is `upstream_github/name`, else `lastversion_repo`,
  else the preferred URL (`find_preferred_url`). The filters come from the `lastversion_only`/
  `having_asset`/`major` macros. Missing values and bad versions are error results.
- **Updating a spec file** (`SpecUpdate`). `update_spec` starts with a semantic gate: exit 2 when the
  spec is not older. When the spec has a current version and the latest version has three or more
  parts, exit 4 follows under the `minor` and `patch` semantics when the major number would change,
  and under `patch` also when the minor number would change; a current version with fewer than two
  parts raises `IndexError` there. Then
  a loop rewrites the lines, with flags that say whether a `lastversion_tag` and a `lastversion_dir`
  line were seen. Finally the missing lines are inserted.
- **Decision rules of `latest`** (`Latest`):
  - how a repo specifier is dispatched to a `.yml` file, a `.spec` file or a remote holder, and the
    Helm chart hint;
  - the project name a `.yml` file gives;
  - `spec_tag`, `spec_tag_no_prefix` and `v_prefix`;
  - `parse_version`'s rejection of URLs and repo names;
  - `has_update`.
- **Installing a release** (`Install`). `install_release` chooses among the assets: the first AppImage,
  else every RPM, else the first extension-less binary, else exit 1. `install_app_image` completes the
  file name with `.AppImage`.

Support modules:
- `Wrappers` holds `Option` and `Result`.
- `Text` holds the ASCII parts of Python's `str` that the code uses.
- `Versions` reduces a version to its release tuple. That tuple has a lexicographic order, proved to be
  a strict total order. The version rendering `str(version)` is defined there. The sanitizer
  (`sanitize_version`) and the version parser (`Version(text)`) are function-typed parameters.

Every operation that ends in `sys.exit(code)` or in an uncaught exception returns an error value that
names the code or the exception. Examples: `SysExit(4)`, an `IndexError` from `release[1]`, an
`AttributeError` from a regex that did not match. The file, clock and network inputs are parameters:
- the spec's lines, as `readlines()` gives them;
- the parsed YAML mapping;
- the packager from `~/.rpmmacros`;
- today's date;
- the result of the remote `latest` lookup;
- the holders' host names and the URL-to-hostname function.

## Model

| member | source | states |
|---|---|---|
| `WikipediaRepoSession.SubPost` | lastversion/WikipediaRepoSession.py:69-72 | a token changes exactly when it is a whole `p<digits>` token, and then becomes `post<digits>` |
| `WikipediaRepoSession.RewriteToken` | lastversion/WikipediaRepoSession.py:66-72 | defines the per-token rewrite: `devel`/`test`/`dev` to `dev0`, else the `p<digits>` substitution (see `RewriteTokenIdempotent`) |
| `WikipediaRepoSession.KeptTokens` | lastversion/WikipediaRepoSession.py:63-74 | defines the surviving tokens: each rewrite that is not purely alphabetic, in order (see `DroppedExactlyWhenAlpha`, `KeptTokensAreSurvivors`) |
| `WikipediaRepoSession.WordsRemoved` | lastversion/WikipediaRepoSession.py:57-75 | defines `remove_words`: split on spaces, keep the surviving tokens, join with spaces (see `WordsRemovedIdempotent`) |
| `WikipediaRepoSession.RemoveWords` | lastversion/WikipediaRepoSession.py:57-75 | the loop over the space-separated tokens returns exactly the cleaned title `WordsRemoved(title)` |
| `WikipediaRepoSession.DevMarkerRewrite` | lastversion/WikipediaRepoSession.py:66-67 | `devel`, `test` and `dev` become `dev0`; apart from them, only `dev0` itself comes out as `dev0` |
| `WikipediaRepoSession.PostMarkerRewrite` | lastversion/WikipediaRepoSession.py:68-72 | outside the dev markers, a token changes iff it is a whole `p<digits>` token (with Python's `$` allowing one final newline); it then becomes `post` and the same digits |
| `WikipediaRepoSession.PostMarkerNeedsWholeToken` | lastversion/WikipediaRepoSession.py:58-72 | `p`, `p1a` and `2.3.4-p2` pass unchanged, and `p12` becomes `post12` |
| `WikipediaRepoSession.DroppedExactlyWhenAlpha` | lastversion/WikipediaRepoSession.py:73-74 | wherever a token stands, it is dropped exactly when its rewrite is non-empty and purely alphabetic; empty tokens survive |
| `WikipediaRepoSession.KeptTokensAppend` | lastversion/WikipediaRepoSession.py:62-74 | cleaning a concatenation of token lists cleans each part separately |
| `WikipediaRepoSession.KeptTokensSnoc` | lastversion/WikipediaRepoSession.py:63-74 | one more token extends the kept list by its rewrite, or by nothing when the rewrite is alphabetic |
| `WikipediaRepoSession.KeptTokensSingle` | lastversion/WikipediaRepoSession.py:63-74 | a single token is kept as its rewrite, or dropped when the rewrite is alphabetic |
| `WikipediaRepoSession.KeptIndicesAreOrdered` | lastversion/WikipediaRepoSession.py:62-75 | the survivors' positions are strictly increasing and all below the number of tokens |
| `WikipediaRepoSession.KeptIndicesCount` | lastversion/WikipediaRepoSession.py:62-75 | one surviving position per kept token, and never more survivors than tokens |
| `WikipediaRepoSession.KeptTokensAreSurvivors` | lastversion/WikipediaRepoSession.py:62-75 | the k-th survivor is the rewrite of the token at the k-th kept position |
| `WikipediaRepoSession.RewriteTokenIdempotent` | lastversion/WikipediaRepoSession.py:64-72 | rewriting a rewritten token changes nothing |
| `WikipediaRepoSession.KeptTokensAreStable` | lastversion/WikipediaRepoSession.py:63-74 | every survivor is its own rewrite, is not purely alphabetic, and has no space when the tokens had none |
| `WikipediaRepoSession.KeptTokensOfStable` | lastversion/WikipediaRepoSession.py:63-74 | a list of tokens that are their own rewrites and not alphabetic is kept whole |
| `WikipediaRepoSession.WordsRemovedIdempotent` | lastversion/WikipediaRepoSession.py:57-75 | `remove_words(remove_words(t)) == remove_words(t)` |
| `WikipediaRepoSession.WordsRemovedHasNoMoreTokens` | lastversion/WikipediaRepoSession.py:58-75 | the output has no more space-separated tokens than the title |
| `WikipediaRepoSession.TagText` | lastversion/WikipediaRepoSession.py:98 | the tag name is the cleaned title up to its first `/`: a prefix without `/`, followed by a `/` unless it is the whole title |
| `WikipediaRepoSession.FirstReleaseLink` | lastversion/WikipediaRepoSession.py:90-91 | the first link whose lower-cased text is `latest release` or `stable release`, and no such link before it; `None` iff there is none |
| `WikipediaRepoSession.LaterLinksIgnored` | lastversion/WikipediaRepoSession.py:90-103 | links after the first release link never change the choice (the `break`) |
| `WikipediaRepoSession.FindReleaseLink` | lastversion/WikipediaRepoSession.py:90-103 | the loop over the infobox links finds the first one that is a release link |
| `WikipediaRepoSession.GetLatest` | lastversion/WikipediaRepoSession.py:77-113 | no release link, an empty tag or an unsanitizable tag gives `None`; otherwise the record holds the title, date, tag and version of the first release link, and its tag is non-empty and has no `/` |
| `SpecScan.FirstKnown` | src/lastversion/lastversion.py:49-55 | the position of the first URL whose host equals a holder's non-empty default host name, and no earlier URL has one |
| `SpecScan.PreferredUrl` | src/lastversion/lastversion.py:43-57 | the first URL with a known host, else the first URL; `None` iff no URLs; a result is always one of the URLs |
| `SpecScan.FindPreferredUrl` | src/lastversion/lastversion.py:43-57 | the nested loop with early return computes `PreferredUrl` |
| `SpecScan.Classify` | src/lastversion/lastversion.py:85-111 | defines the branch of the `if`/`elif` chain a line takes: the first prefix it starts with (see `ClassifyVersionTag`, `ClassifyUpstreamVersion`) |
| `SpecScan.TagValue` | src/lastversion/lastversion.py:91-106 | defines `line.split(key)[1].strip()` (see `VersionTagValueOfLine`) |
| `SpecScan.Apply` | src/lastversion/lastversion.py:85-112 | defines the assignment each branch makes (see `SettingStep`, `CurrentVersionStep`, `UrlOf`) |
| `SpecScan.Step` | src/lastversion/lastversion.py:85-112 | defines one turn of the loop: a malformed macro line raises, any other line applies its branch (see `SettingStep`, `CurrentVersionStep`) |
| `SpecScan.Scan` | src/lastversion/lastversion.py:84-112 | defines the loop over all lines (see `ScanLines`, `ScanErrorPersists`, `ScanKeepsLastValue`) |
| `SpecScan.Finish` | src/lastversion/lastversion.py:114-154 | defines the checks after the loop (see `MissingVersionFails`, `NamePrecedence`, `RepoPrecedence`) |
| `SpecScan.SpecRepoData` | src/lastversion/lastversion.py:60-154 | defines what `get_repo_data_from_spec` returns (see `GetRepoDataFromSpec`, `CurrentVersionSource`) |
| `SpecScan.ClassifyVersionTag` | src/lastversion/lastversion.py:105 | a line starting with `Version:` is classified as a `Version:` tag |
| `SpecScan.ClassifyUpstreamVersion` | src/lastversion/lastversion.py:101 | a line starting with `%global upstream_version ` is classified as that macro |
| `SpecScan.MacroValue` | src/lastversion/lastversion.py:86 | a macro's value is non-empty and has no whitespace |
| `SpecScan.MacroValueIsThirdField` | src/lastversion/lastversion.py:86 | the value is the third field; `None`, the `IndexError`, exactly when the line has fewer than three fields |
| `SpecScan.ScanErrorPersists` | src/lastversion/lastversion.py:84-111 | once a line raises, later lines do not change the failure |
| `SpecScan.LastValue` | src/lastversion/lastversion.py:85-111 | the value of the last line of a kind; for macros always non-empty |
| `SpecScan.SettingStep` | src/lastversion/lastversion.py:85-112 | one line of a kind replaces that setting with its value, any other line keeps it |
| `SpecScan.StepOfLine` | src/lastversion/lastversion.py:85-112 | a line of no known kind leaves the state, any other line has a value and applies its branch with it |
| `SpecScan.ApplySetting` | src/lastversion/lastversion.py:85-112 | a branch assigns its own setting and no other |
| `SpecScan.ScanKeepsLastValue` | src/lastversion/lastversion.py:85-112 | `lastversion_repo`, `upstream_github`, `upstream_name`, `Name:` and the three filter macros take the value of their last line |
| `SpecScan.UrlOf` | src/lastversion/lastversion.py:93-100 | a line contributes a URL only as a `URL:` tag or as a `Source0:` with an http(s) value |
| `SpecScan.ScanCollectsUrls` | src/lastversion/lastversion.py:93-100 | the spec's URLs are the `URL:` values and the http(s) `Source0:` values, in line order |
| `SpecScan.Source0WithoutSchemeIgnored` | src/lastversion/lastversion.py:96-100 | a `Source0:` line without an http(s) value leaves the scan unchanged |
| `SpecScan.ModuleOfMarksUpstreamVersion` | src/lastversion/lastversion.py:101-104 | `module_of` is set iff the spec has an `upstream_version` macro line |
| `SpecScan.VersionTagValue` | src/lastversion/lastversion.py:105-106 | a `Version:` line contributes its value exactly when that value is non-empty |
| `SpecScan.FirstVersionTag` | src/lastversion/lastversion.py:105-106 | the first `Version:` value that is non-empty |
| `SpecScan.CurrentVersionStep` | src/lastversion/lastversion.py:101-106 | one line: an `upstream_version` macro sets the current version to its non-empty value, a `Version:` line only fills an empty one, any other line leaves it |
| `SpecScan.UpstreamVersionValue` | src/lastversion/lastversion.py:101-102 | an `upstream_version` line's value is its macro value, which is non-empty |
| `SpecScan.ApplyCurrentVersion` | src/lastversion/lastversion.py:101-106 | the macro branch sets the current version, the `Version:` branch only fills an empty one, every other branch keeps it |
| `SpecScan.UpstreamVersionOverrides` | src/lastversion/lastversion.py:101-104 | with an `upstream_version` macro present, the current version is the last one's value |
| `SpecScan.FirstVersionTagFallback` | src/lastversion/lastversion.py:105-106 | without such a macro, the current version is set exactly when some `Version:` line is non-empty, and then to the first one |
| `SpecScan.CurrentVersionSource` | src/lastversion/lastversion.py:101-106 | an `upstream_version` macro anywhere sets the current version to its last value; without one, the first non-empty `Version:` does |
| `SpecScan.MissingVersionFails` | src/lastversion/lastversion.py:114-118 | a spec with neither source of a current version is an error (exit 1) |
| `SpecScan.CurrentVersionOfText` | src/lastversion/lastversion.py:119-128 | the text `x` leaves the current version absent; any other text is parsed, and parse failure is the error path |
| `SpecScan.NamePrecedence` | src/lastversion/lastversion.py:129-134 | the name is `upstream_name` if set, else `Name:`, and `spec_name` names the macro it came from |
| `SpecScan.RepoPrecedence` | src/lastversion/lastversion.py:136-143 | the repo is `upstream_github/name`, else `lastversion_repo`, else the preferred URL |
| `SpecScan.FiltersFromLastMacro` | src/lastversion/lastversion.py:107-112 | `only`, `having_asset` and `major` are the last values of their macros |
| `SpecScan.ScanLines` | src/lastversion/lastversion.py:84-111 | the line loop stops at the first malformed line and otherwise computes the scan of all lines |
| `SpecScan.GetRepoDataFromSpec` | src/lastversion/lastversion.py:60-154 | the line loop and the checks after it compute `SpecRepoData(lines)` |
| `SpecUpdate.Gate` | src/lastversion/lastversion.py:399-419 | exit 2 iff a current version is present and not older; exit 4 iff it is older, the latest has 3+ parts, the current 2+, and the major differs under `minor`/`patch` or the minor differs under `patch`; `IndexError` iff an older current version has fewer than 2 parts against a latest of 3+; nothing else stops the update |
| `SpecUpdate.AnyNewerVersionPassesUnlessSemantic` | src/lastversion/lastversion.py:399-416 | with a semantic other than minor/patch every newer version passes |
| `SpecUpdate.KindOf` | src/lastversion/lastversion.py:429-464 | defines the branch of the rewrite's `if`/`elif` chain a line takes (see `ReleaseKind`, `VersionKind`, `UnmatchedLineKept`) |
| `SpecUpdate.SetVersion` | src/lastversion/lastversion.py:443-445 | defines the `Version:` substitution (see `SetVersionOfMatch`) |
| `SpecUpdate.BumpRelease` | src/lastversion/lastversion.py:456-462 | defines the `Release:` bump (see `BumpReleaseOfMatch`, `ReleaseBumpIdempotent`) |
| `SpecUpdate.SpaceThenWord` | src/lastversion/lastversion.py:443-444 | the match of `(\s+)(\S+)`: a non-empty whitespace run and a non-empty word, followed by whitespace or the end; no match iff the text is empty, starts with a non-space or is all whitespace |
| `SpecUpdate.RewriteLine` | src/lastversion/lastversion.py:429-464 | the new `lastversion_tag`, `lastversion_dir` and `upstream_version` lines replace theirs; `%changelog` with a packager gains the dated entry after it; any other line is kept right-stripped; an `AttributeError` iff a `Version:`/`Release:` line fails its regex |
| `SpecUpdate.UnmatchedLineKept` | src/lastversion/lastversion.py:463-464 | a line that starts none of the branches is kept, without its trailing whitespace |
| `SpecUpdate.ReleaseLineRewrite` | src/lastversion/lastversion.py:455-462 | a `Release:` line becomes `Release:`, the same whitespace, `1` and the old value without its leading digits |
| `SpecUpdate.RewriteOfRelease` | src/lastversion/lastversion.py:455-462 | a line taking the `Release:` branch gives the single bumped line or the regex error |
| `SpecUpdate.BumpReleaseOfMatch` | src/lastversion/lastversion.py:456-462 | the bump of a matching `Release:` line |
| `SpecUpdate.ReleaseKind` | src/lastversion/lastversion.py:429-455 | a `Release:` line reaches the `Release:` branch |
| `SpecUpdate.VersionKind` | src/lastversion/lastversion.py:440-442 | a `Version:` line outside a module spec reaches the `Version:` branch |
| `SpecUpdate.VersionLineRewrite` | src/lastversion/lastversion.py:440-445 | a `Version:` line in a non-module spec keeps its whitespace and gets the new version |
| `SpecUpdate.MatchOfSpaceThenWord` | src/lastversion/lastversion.py:443-444 | the regex captures exactly the whitespace and the word that follow the tag |
| `SpecUpdate.RewriteOfVersion` | src/lastversion/lastversion.py:440-445 | a line taking the `Version:` branch becomes the single line with the version substituted, or the regex error |
| `SpecUpdate.SetVersionOfMatch` | src/lastversion/lastversion.py:443-445 | substituting into a matching `Version:` line keeps its whitespace and replaces the word by the new version |
| `SpecUpdate.ReleaseBumpIdempotent` | src/lastversion/lastversion.py:455-462 | bumping a bumped `Release:` line changes nothing |
| `SpecUpdate.BumpOfBumped` | src/lastversion/lastversion.py:456-462 | a `Release:` line already at `1` followed by a non-digit is a fixed point |
| `SpecUpdate.VersionLineReadsBack` | src/lastversion/lastversion.py:445 | the scan reads the new version back from the rewritten `Version:` line |
| `SpecUpdate.VersionTagValueOfLine` | src/lastversion/lastversion.py:445 | the value read from `Version:` plus whitespace plus a version string is that string |
| `SpecUpdate.UpstreamVersionLineReadsBack` | src/lastversion/lastversion.py:438-439 | the scan reads the new version back from the rewritten `upstream_version` macro |
| `SpecUpdate.UpstreamVersionRewriteReadsBack` | src/lastversion/lastversion.py:438-439 | rewriting an `upstream_version` line gives one line that the scan reads as that macro with the new version |
| `SpecUpdate.MacroValueOfDefinition` | src/lastversion/lastversion.py:439 | the macro's value is the word written after `%global upstream_version ` |
| `SpecUpdate.RewriteErrorPersists` | src/lastversion/lastversion.py:428-464 | once a line raises, later lines do not change the failure |
| `SpecUpdate.TagLineKept` | src/lastversion/lastversion.py:429-431 | a spec with a `lastversion_tag` line gets the new tag line in the output |
| `SpecUpdate.FirstIndex` | src/lastversion/lastversion.py:472 | `out.index(x)`: the first position holding `x` |
| `SpecUpdate.InsertionsPlacement` | src/lastversion/lastversion.py:466-476 | the tag line is present, first when it was missing; a missing dir line goes right after the first tag line |
| `SpecUpdate.InsertionsAddOnlyMissingLines` | src/lastversion/lastversion.py:466-476 | the insertions add the missing tag and dir lines and nothing else (as multisets) |
| `SpecUpdate.Rewritten` | src/lastversion/lastversion.py:427-464 | defines the loop's output list (see `RewriteLoop`, `RewriteErrorPersists`) |
| `SpecUpdate.Insertions` | src/lastversion/lastversion.py:466-476 | defines the two `out.insert` steps (see `InsertionsPlacement`, `InsertionsAddOnlyMissingLines`) |
| `SpecUpdate.UpdatedLines` | src/lastversion/lastversion.py:420-476 | defines the lines `update_spec` writes (see `RewriteSpecLines`, `UpdatedLinesOfBody`) |
| `SpecUpdate.RewrittenSnoc` | src/lastversion/lastversion.py:428-464 | one more input line appends its rewrite |
| `SpecUpdate.AnyStartsWithSnoc` | src/lastversion/lastversion.py:429-437 | the presence flags after one more line; no line sets both |
| `SpecUpdate.RewriteLoop` | src/lastversion/lastversion.py:422-464 | the loop builds `Rewritten(lines)` and its flags say whether a tag line and a dir line were seen |
| `SpecUpdate.UpdatedLinesOfBody` | src/lastversion/lastversion.py:466-476 | the written lines are the loop's output with the insertions |
| `SpecUpdate.RewriteSpecLines` | src/lastversion/lastversion.py:420-476 | loop plus `out.insert` computes `UpdatedLines(lines)` |
| `SpecUpdate.UpdateSpec` | src/lastversion/lastversion.py:397-479 | a closed gate's exit is returned; otherwise the rewrite's error, or the lines joined by newlines |
| `Latest.SourceOf` | src/lastversion/lastversion.py:229-238 | `.spec` files read the spec; non-URL `.yml` files read the YAML; everything else is remote |
| `Latest.SuffixesExclusive` | src/lastversion/lastversion.py:230-238 | no specifier takes both file branches |
| `Latest.HolderHint` | src/lastversion/lastversion.py:234-235 | an http(s) `Chart.yaml` specifier forces `helm_chart`; otherwise the caller's `at` stays |
| `Latest.HelmChartUrlIsRemote` | src/lastversion/lastversion.py:229-238 | a Helm chart URL reads no local file and goes to `helm_chart` |
| `Latest.HolderRepo` | src/lastversion/lastversion.py:240-242 | the holder gets the `repo` of the repo data when there is one, else the specifier |
| `Latest.Stem` | src/lastversion/lastversion.py:164 | `splitext(...)[0]`: the base name up to its last dot, unless only dots precede that dot or there is none, in which case the whole name |
| `Latest.YmlRepoData` | src/lastversion/lastversion.py:157-168 | without `repo` the mapping is unchanged; with it, only `name` (and `module_of="nginx"` for `nginx-extras` paths) are added, and `name` is the stem, prefixed by `<module_of>-module-` when there is a module |
| `Latest.StemOfYmlFile` | src/lastversion/lastversion.py:164 | `<dir>/<stem>.yml` has base name `<stem>.yml` and stem `<stem>` |
| `Latest.BaseNameOfYmlFile` | src/lastversion/lastversion.py:164 | the base name of `<dir>/<stem>.yml` is `<stem>.yml` |
| `Latest.StemOfYml` | src/lastversion/lastversion.py:164 | `splitext` of `<stem>.yml` gives `<stem>` |
| `Latest.YmlProjectName` | src/lastversion/lastversion.py:161-167 | the project of `<dir>/<stem>.yml` is named `<stem>`, or `<module>-module-<stem>` |
| `Latest.VersionMacro` | src/lastversion/lastversion.py:274-277 | the macro is a `%{...}` expansion |
| `Latest.SpecTag` | src/lastversion/lastversion.py:280 | defines the spec tag: the tag with `str(version)` replaced by the version macro (see `SpecTagExpandsToTag`) |
| `Latest.NoPrefix` | src/lastversion/lastversion.py:283-288 | when the spec tag starts with `v` and the macro or with `v` and a digit, all leading `v`s go; otherwise nothing changes |
| `Latest.ReleaseTags` | src/lastversion/lastversion.py:273-288 | `v_prefix` iff the tag starts with `v`; no occurrence of `str(version)` is left in the spec tag, and putting the version back where the macro is recovers a tag without `%`; the prefix-free tag is a suffix of the spec tag that lost only leading `v`s and starts with no `v` when the strip rule applies, and is the spec tag otherwise |
| `Latest.SpecTagExpandsToTag` | src/lastversion/lastversion.py:280 | expanding the macro in the spec tag gives back a tag that has no `%` |
| `Latest.SpecTagReplacesEveryOccurrence` | src/lastversion/lastversion.py:280 | every occurrence of `str(version)` in the tag is replaced: the spec tag contains none |
| `Latest.VTag` | src/lastversion/lastversion.py:273-288 | tag `v1.2.3` gives `v%{version}` and, without the prefix, `%{version}` |
| `Latest.PlainTag` | src/lastversion/lastversion.py:273-288 | tag `1.2.3` gives `%{version}` both ways and no `v` prefix |
| `Latest.ParseVersion` | src/lastversion/lastversion.py:367-381 | URLs and slash-without-space arguments are refused; everything else goes to the sanitizer with pre-releases allowed |
| `Latest.RepoSpecifierIsNoVersion` | src/lastversion/lastversion.py:377-378 | an `owner/name` specifier is never a version |
| `Latest.HasUpdate` | src/lastversion/lastversion.py:327-344 | the latest version iff it is strictly newer than the parsed current one; parsing fails only when a latest version was found |
| `Versions.LessIsStrictTotalOrder` | src/lastversion/lastversion.py:342 | the `>` between versions that `has_update` uses is irreflexive, asymmetric, transitive and total on release tuples |
| `Latest.NoUpdateToSameVersion` | src/lastversion/lastversion.py:342-344 | the current version is no update to itself |
| `Latest.UpdatesAreOneWay` | src/lastversion/lastversion.py:342-344 | if `b` updates `a`, `a` does not update `b` |
| `Latest.DistinctVersionsHaveOneUpdate` | src/lastversion/lastversion.py:342-344 | of two distinct versions, exactly one updates the other |
| `Install.AppImageName` | src/lastversion/lastversion.py:489-490 | the name ends with `.AppImage`; one that already does is kept; otherwise the suffix is appended |
| `Install.AppImageNameIdempotent` | src/lastversion/lastversion.py:489-490 | completing the name twice is completing it once |
| `Install.Keep` | src/lastversion/lastversion.py:546 | a comprehension keeps only accepted assets and all of them |
| `Install.KeepHead` | src/lastversion/lastversion.py:546-549 | the first kept asset is the first accepted one |
| `Install.KeepConcat` | src/lastversion/lastversion.py:552 | filtering keeps the assets' order |
| `Install.KeepEmpty` | src/lastversion/lastversion.py:547 | a comprehension is empty iff no asset is accepted |
| `Install.InstallRelease` | src/lastversion/lastversion.py:544-566 | an AppImage iff any asset is one, else all RPMs iff any, else a static binary iff any, else exit 1; installed under `install_name` or the repo name |
| `Install.FirstOfItsKind` | src/lastversion/lastversion.py:546-562 | the AppImage or static binary installed is the first of its kind |
| `Install.DottedSuffixInLastSegment` | src/lastversion/lastversion.py:557-559 | a dotted suffix without `/` puts a dot in the last path segment |
| `Install.StaticIsNoPackage` | src/lastversion/lastversion.py:546-559 | a static binary is neither an AppImage nor an RPM, and no asset is both |

## Left out

- HTTP fetching, BeautifulSoup selection and `decompose`, and `dateutil` parsing in `get_latest`: these are foreign libraries and network I/O. The infobox is an input list, and the `published` text is carried unparsed.
- `GetLatest`: the `if not ret or version > ret['version']` step is modelled as always taken. `ret` is `None` there, so the comparison never runs.
- An infobox row without an `.infobox-data` cell or without a `span.published`: Python raises `AttributeError` there, and the model's links always carry both.
- The holder registry (`HolderFactory`, `get_instance_for_repo`): the default host names are an input list and hostname parsing is a function parameter.
- `Version` and `sanitize_version`, whose code is not part of this model, are a release tuple with a lexicographic order and a function parameter. PEP 440 details (pre/post/dev parts, trailing-zero equality such as `1.0 == 1.0.0`) are not modelled.
- `shlex.split` quoting: a `%global` value is the third whitespace-separated field. Python's Unicode `isalpha`, `isspace`, `\s`, `\d` and `lower` are restricted to ASCII.
- File `open`/`write` and `yaml.safe_load`: the spec arrives as its lines, the YAML file as a string-valued mapping that is always a dictionary, and the written file is the joined text.
- Reading `~/.rpmmacros` (`get_rpm_packager`), `datetime.utcnow()` and its formatting, `print` and the log calls: the packager and today's date are parameters.
- `install_rpms`, `install_standalone_binary`, `extract_appimage_desktop_file`, `download_file`, `chmod`, `mkdir` and the yum `subprocess` call: only which installer gets which assets is modelled.
- The remote part of `latest`: the project lookup, the JSON fields other than the tag fields, and licences/readmes/assets. `has_update` receives the lookup's result as a parameter.
- `check_version` and the CLI `main` are not part of this model.
- `sys.exit(code)` is an error value carrying the code, not a process exit. Exceptions are error values too.
