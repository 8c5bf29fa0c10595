/**
 * `update_spec`: the semantic gate that decides whether a spec file may be
 * moved to a newer version, and the rewrite of the spec's lines.
 *
 * The spec file arrives as its lines, each with its line end, as
 * `readlines()` gives them; the rewritten file is the output lines joined with
 * `"\n"`. The packager from `~/.rpmmacros` and today's date are parameters.
 */
module SpecUpdate {
  import opened Wrappers
  import Text
  import opened Versions
  import SpecScan

  /** The entries of the release record that `update_spec` reads. */
  datatype SpecRelease = SpecRelease(
    version: Version,
    currentVersion: Option<Version>,
    specTag: string,
    specName: string,
    specTagNoPrefix: string,
    moduleOf: bool)

  /** Why `update_spec` stops without writing: `sys.exit(code)`, or an exception. */
  datatype UpdateError =
    | SysExit(code: nat)
    | ReleaseIndexError
    | VersionTagMismatch(line: string)
    | ReleaseTagMismatch(line: string)

  predicate KeepsMajorUnder(sem: string) {
    sem == "minor" || sem == "patch"
  }

  /** The gate before the rewrite; `None` lets the rewrite go ahead. */
  function Gate(current: Option<Version>, latest: Version, sem: string): (e: Option<UpdateError>)
    ensures e == Some(SysExit(2)) <==> current.Some? && !Less(current.value, latest)
    ensures e.None? ==> current.None? || Less(current.value, latest)
    ensures e.None? && current.Some? && |latest.release| >= 3 ==> |current.value.release| >= 2
    ensures e.None? && current.Some? && |latest.release| >= 3 && KeepsMajorUnder(sem) ==>
      |current.value.release| >= 2 && latest.release[0] == current.value.release[0]
    ensures e.None? && current.Some? && |latest.release| >= 3 && sem == "patch" ==>
      |current.value.release| >= 2 && latest.release[1] == current.value.release[1]
    ensures e == Some(ReleaseIndexError) <==>
      current.Some? && Less(current.value, latest) && |latest.release| >= 3 && |current.value.release| < 2
    ensures e == Some(SysExit(4)) <==>
      current.Some? && Less(current.value, latest) && |latest.release| >= 3 && |current.value.release| >= 2
      && ((KeepsMajorUnder(sem) && latest.release[0] != current.value.release[0])
          || (sem == "patch" && latest.release[1] != current.value.release[1]))
    ensures e.None? || e.value in {SysExit(2), SysExit(4), ReleaseIndexError}
  {
    if current.Some? && !Less(current.value, latest) then Some(SysExit(2))
    else if current.None? || |latest.release| < 3 then None
    else if |current.value.release| < 2 then Some(ReleaseIndexError)
    else if KeepsMajorUnder(sem) && latest.release[0] != current.value.release[0] then Some(SysExit(4))
    else if sem == "patch" && latest.release[1] != current.value.release[1] then Some(SysExit(4))
    else None
  }

  /** With any semantic other than `minor` and `patch`, every newer version passes
      the gate once the minor number can be read. */
  lemma AnyNewerVersionPassesUnlessSemantic(current: Option<Version>, latest: Version, sem: string)
    requires !KeepsMajorUnder(sem)
    requires current.None? || (Less(current.value, latest) && |current.value.release| >= 2)
    ensures Gate(current, latest, sem).None?
  {
  }

  const TagPrefix := "%global lastversion_tag "
  const DirPrefix := "%global lastversion_dir "
  const UpstreamVersionPrefix := "%global upstream_version "

  /** The `%global lastversion_tag` line the rewrite writes. */
  function TagLine(res: SpecRelease): string {
    TagPrefix + res.specTag
  }

  /** The `%global lastversion_dir` line the rewrite writes. */
  function DirLine(res: SpecRelease): string {
    DirPrefix + res.specName + "-" + res.specTagNoPrefix
  }

  /** Which branch of the rewrite's `if`/`elif` chain a line takes. */
  datatype UpdateKind = TagDef | DirDef | UpstreamVersionDef | VersionTag | Changelog | ReleaseTag | Plain

  function KindOf(line: string, moduleOf: bool, hasPackager: bool): UpdateKind {
    if Text.StartsWith(line, TagPrefix) then TagDef
    else if Text.StartsWith(line, DirPrefix) then DirDef
    else if Text.StartsWith(line, UpstreamVersionPrefix) then UpstreamVersionDef
    else if Text.StartsWith(line, "Version:") && !moduleOf then VersionTag
    else if Text.StartsWith(line, "%changelog") && hasPackager then Changelog
    else if Text.StartsWith(line, "Release:") then ReleaseTag
    else Plain
  }

  /** The match of `(\s+)(\S+)` at the start of `s`: the whitespace and the word
      after it, `None` when there is no match. */
  function SpaceThenWord(s: string): (m: Option<(string, string)>)
    ensures m.Some? ==>
      && m.value.0 != [] && (forall i :: 0 <= i < |m.value.0| ==> Text.IsSpace(m.value.0[i]))
      && m.value.1 != [] && Text.NoSpace(m.value.1)
      && m.value.0 + m.value.1 <= s
      && (|m.value.0 + m.value.1| < |s| ==> Text.IsSpace(s[|m.value.0 + m.value.1|]))
    ensures m.None? <==> s == [] || !Text.IsSpace(s[0]) || Text.AllSpace(s)
  {
    var ws := Text.LeadingSpace(s);
    if ws == [] || |ws| == |s| then
      assert ws == [] ==> s == [] || !Text.IsSpace(s[0]);
      assert |ws| == |s| ==> ws == s;
      None
    else
      var word := Text.LeadingWord(s[|ws|..]);
      assert s[|ws|..][0] == s[|ws|];
      assert s[..|ws|] == ws;
      assert ws + word <= s by {
        assert s == s[..|ws|] + s[|ws|..];
      }
      assert |ws + word| < |s| ==> s[|ws + word|] == s[|ws|..][|word|];
      Some((ws, word))
  }

  /** The `Version:` and `Release:` tags are 8 characters long. */
  const TagKeyLength := 8

  /** The `Version:` line with the new version, keeping the whitespace after the tag. */
  function SetVersion(line: string, v: Version): Result<string, UpdateError>
    requires |line| >= TagKeyLength
  {
    var m := SpaceThenWord(line[TagKeyLength..]);
    if m.None? then Err(VersionTagMismatch(line))
    else Ok("Version:" + m.value.0 + ToString(v))
  }

  /** The `Release:` line with the release number reset to 1. */
  function BumpRelease(line: string): Result<string, UpdateError>
    requires |line| >= TagKeyLength
  {
    var m := SpaceThenWord(line[TagKeyLength..]);
    if m.None? then Err(ReleaseTagMismatch(line))
    else Ok("Release:" + m.value.0 + "1" + Text.LStripDigits(m.value.1))
  }

  function Single(r: Result<string, UpdateError>): Result<seq<string>, UpdateError> {
    match r
    case Ok(line) => Ok([line])
    case Err(e) => Err(e)
  }

  /** What the rewrite puts out for one input line. */
  function RewriteLine(line: string, res: SpecRelease, packager: Option<string>, today: string)
    : (r: Result<seq<string>, UpdateError>)
    ensures r.Ok? ==>
      |r.value| == (if KindOf(line, res.moduleOf, SpecScan.Truthy(packager)) == Changelog then 4 else 1)
    ensures r.Err? <==>
      && (KindOf(line, res.moduleOf, SpecScan.Truthy(packager)) in {VersionTag, ReleaseTag})
      && SpaceThenWord(line[TagKeyLength..]).None?
    ensures KindOf(line, res.moduleOf, SpecScan.Truthy(packager)) == TagDef ==> r == Ok([TagLine(res)])
    ensures KindOf(line, res.moduleOf, SpecScan.Truthy(packager)) == DirDef ==> r == Ok([DirLine(res)])
    ensures KindOf(line, res.moduleOf, SpecScan.Truthy(packager)) == UpstreamVersionDef ==>
      r == Ok([UpstreamVersionPrefix + ToString(res.version)])
    ensures KindOf(line, res.moduleOf, SpecScan.Truthy(packager)) == Changelog ==>
      packager.Some? && r == Ok([Text.RStrip(line), "* " + today + " " + packager.value,
                                 "- upstream release v" + ToString(res.version), "\n"])
    ensures KindOf(line, res.moduleOf, SpecScan.Truthy(packager)) == Plain ==>
      r == Ok([Text.RStrip(line)]) && Text.RStrip(line) <= line
  {
    match KindOf(line, res.moduleOf, SpecScan.Truthy(packager))
    case TagDef => Ok([TagLine(res)])
    case DirDef => Ok([DirLine(res)])
    case UpstreamVersionDef => Ok([UpstreamVersionPrefix + ToString(res.version)])
    case VersionTag => Single(SetVersion(line, res.version))
    case Changelog =>
      Ok([Text.RStrip(line), "* " + today + " " + packager.value,
          "- upstream release v" + ToString(res.version), "\n"])
    case ReleaseTag => Single(BumpRelease(line))
    case Plain => Ok([Text.RStrip(line)])
  }

  /** A line that matches `^Release:(\s+)(\S+)` becomes `Release:`, the same
      whitespace, `1` and the old value without its leading digits; what follows
      the value is dropped. */
  lemma ReleaseLineRewrite(
    ws: string, word: string, rest: string, res: SpecRelease, packager: Option<string>, today: string)
    requires ws != [] && Text.AllSpace(ws)
    requires word != [] && Text.NoSpace(word)
    requires rest == [] || Text.IsSpace(rest[0])
    ensures var line := "Release:" + ws + word + rest;
      KindOf(line, res.moduleOf, SpecScan.Truthy(packager)) == ReleaseTag
      && RewriteLine(line, res, packager, today) == Ok(["Release:" + ws + "1" + Text.LStripDigits(word)])
  {
    var line := "Release:" + ws + word + rest;
    ReleaseKind(ws, word, rest, res.moduleOf, SpecScan.Truthy(packager));
    BumpReleaseOfMatch(ws, word, rest);
    RewriteOfRelease(line, res, packager, today);
  }

  lemma RewriteOfRelease(line: string, res: SpecRelease, packager: Option<string>, today: string)
    requires KindOf(line, res.moduleOf, SpecScan.Truthy(packager)) == ReleaseTag
    ensures RewriteLine(line, res, packager, today) == Single(BumpRelease(line))
  {
  }

  lemma BumpReleaseOfMatch(ws: string, word: string, rest: string)
    requires ws != [] && Text.AllSpace(ws)
    requires word != [] && Text.NoSpace(word)
    requires rest == [] || Text.IsSpace(rest[0])
    ensures BumpRelease("Release:" + ws + word + rest) == Ok("Release:" + ws + "1" + Text.LStripDigits(word))
  {
    var line := "Release:" + ws + word + rest;
    assert line[TagKeyLength..] == ws + (word + rest);
    MatchOfSpaceThenWord(ws, word, rest);
  }

  lemma ReleaseKind(ws: string, word: string, rest: string, moduleOf: bool, hasPackager: bool)
    ensures KindOf("Release:" + ws + word + rest, moduleOf, hasPackager) == ReleaseTag
  {
    var line := "Release:" + ws + word + rest;
    assert line[..TagKeyLength] == "Release:";
    assert line[0] == 'R';
  }

  lemma VersionKind(line: string, hasPackager: bool)
    requires |line| >= TagKeyLength && line[..TagKeyLength] == "Version:"
    ensures KindOf(line, false, hasPackager) == VersionTag
  {
    assert line[0] == 'V';
  }

  /** On a matching `Version:` line outside a module spec, only the value changes. */
  lemma VersionLineRewrite(
    ws: string, word: string, rest: string, res: SpecRelease, packager: Option<string>, today: string)
    requires ws != [] && Text.AllSpace(ws)
    requires word != [] && Text.NoSpace(word)
    requires rest == [] || Text.IsSpace(rest[0])
    requires !res.moduleOf
    ensures var line := "Version:" + ws + word + rest;
      KindOf(line, res.moduleOf, SpecScan.Truthy(packager)) == VersionTag
      && RewriteLine(line, res, packager, today) == Ok(["Version:" + ws + ToString(res.version)])
  {
    var line := "Version:" + ws + word + rest;
    assert line[..TagKeyLength] == "Version:";
    VersionKind(line, SpecScan.Truthy(packager));
    SetVersionOfMatch(ws, word, rest, res.version);
    RewriteOfVersion(line, res, packager, today);
  }

  lemma RewriteOfVersion(line: string, res: SpecRelease, packager: Option<string>, today: string)
    requires KindOf(line, res.moduleOf, SpecScan.Truthy(packager)) == VersionTag
    ensures RewriteLine(line, res, packager, today) == Single(SetVersion(line, res.version))
  {
  }

  lemma SetVersionOfMatch(ws: string, word: string, rest: string, v: Version)
    requires ws != [] && Text.AllSpace(ws)
    requires word != [] && Text.NoSpace(word)
    requires rest == [] || Text.IsSpace(rest[0])
    ensures SetVersion("Version:" + ws + word + rest, v) == Ok("Version:" + ws + ToString(v))
  {
    var line := "Version:" + ws + word + rest;
    assert line[TagKeyLength..] == ws + (word + rest);
    MatchOfSpaceThenWord(ws, word, rest);
  }

  lemma MatchOfSpaceThenWord(ws: string, word: string, rest: string)
    requires ws != [] && Text.AllSpace(ws)
    requires word != [] && Text.NoSpace(word)
    requires rest == [] || Text.IsSpace(rest[0])
    ensures SpaceThenWord(ws + (word + rest)) == Some((ws, word))
  {
    Text.LeadingSpaceOfJoin(ws, word + rest);
    assert (ws + (word + rest))[|ws|..] == word + rest;
    Text.LeadingWordOfJoin(word, rest);
  }

  /** Bumping the release twice is the same as bumping it once. */
  lemma ReleaseBumpIdempotent(ws: string, word: string, rest: string)
    requires ws != [] && Text.AllSpace(ws)
    requires word != [] && Text.NoSpace(word)
    requires rest == [] || Text.IsSpace(rest[0])
    ensures var bumped := "Release:" + ws + "1" + Text.LStripDigits(word);
      BumpRelease("Release:" + ws + word + rest) == Ok(bumped) && BumpRelease(bumped) == Ok(bumped)
  {
    BumpReleaseOfMatch(ws, word, rest);
    Text.NoSpaceOfSuffix(word, Text.LStripDigits(word));
    BumpOfBumped(ws, Text.LStripDigits(word));
  }

  lemma BumpOfBumped(ws: string, tail: string)
    requires ws != [] && Text.AllSpace(ws)
    requires Text.NoSpace(tail) && (tail == [] || !Text.IsDigit(tail[0]))
    ensures BumpRelease("Release:" + ws + "1" + tail) == Ok("Release:" + ws + "1" + tail)
  {
    var word := "1" + tail;
    assert Text.NoSpace(word) by {
      assert forall i :: 1 <= i < |word| ==> word[i] == tail[i - 1];
    }
    assert Text.LStripDigits(word) == tail by {
      assert word[1..] == tail;
    }
    assert "Release:" + ws + word + "" == "Release:" + ws + "1" + tail;
    BumpReleaseOfMatch(ws, word, "");
  }

  /** The scan of a spec file reads the new version back from a rewritten `Version:` line. */
  lemma VersionLineReadsBack(ws: string, v: Version)
    requires ws != [] && Text.AllSpace(ws)
    requires |v.release| > 0
    ensures var line := "Version:" + ws + ToString(v);
      SpecScan.Classify(line) == SpecScan.VersionTag
      && SpecScan.TagValue(line, "Version:") == ToString(v)
  {
    var line := "Version:" + ws + ToString(v);
    assert line[..8] == "Version:";
    SpecScan.ClassifyVersionTag(line);
    VersionTagValueOfLine(ws, ToString(v));
  }

  /** The value after `Version:` is the padded version string, stripped. */
  lemma VersionTagValueOfLine(ws: string, t: string)
    requires ws != [] && Text.AllSpace(ws)
    requires t != [] && Text.IsDigit(t[0]) && forall i :: 0 <= i < |t| ==> IsVersionChar(t[i])
    ensures SpecScan.TagValue("Version:" + ws + t, "Version:") == t
  {
    var line := "Version:" + ws + t;
    assert line[8..] == ws + t;
    assert 'V' !in ws + t by {
      assert forall i :: 0 <= i < |ws + t| ==> Text.IsSpace((ws + t)[i]) || IsVersionChar((ws + t)[i]);
    }
    Text.BeforeAbsentKey(ws + t, "Version:");
    Text.LStripOfJoin(ws, t);
    assert !Text.IsSpace(t[|t| - 1]) by {
      assert IsVersionChar(t[|t| - 1]);
    }
  }

  /** The scan reads the new version back from a rewritten `upstream_version` macro. */
  lemma UpstreamVersionLineReadsBack(v: Version)
    requires |v.release| > 0
    ensures var line := UpstreamVersionPrefix + ToString(v);
      SpecScan.Classify(line) == SpecScan.UpstreamVersion
      && SpecScan.MacroValue(line) == Some(ToString(v))
  {
    var t := ToString(v);
    var line := UpstreamVersionPrefix + t;
    assert line[..25] == UpstreamVersionPrefix;
    SpecScan.ClassifyUpstreamVersion(line);
    assert Text.NoSpace(t) by {
      assert forall i :: 0 <= i < |t| ==> IsVersionChar(t[i]);
    }
    MacroValueOfDefinition(t);
  }

  /** A line that starts none of the rewrite's branches is kept, with its
      trailing whitespace (the line end among it) removed. */
  lemma UnmatchedLineKept(line: string, res: SpecRelease, packager: Option<string>, today: string)
    requires !Text.StartsWith(line, "%global lastversion_")
    requires !Text.StartsWith(line, "%global upstream_version ")
    requires !Text.StartsWith(line, "Version:") && !Text.StartsWith(line, "Release:")
    requires !Text.StartsWith(line, "%changelog")
    ensures RewriteLine(line, res, packager, today) == Ok([Text.RStrip(line)])
  {
    NotStartsWithLonger(line, "%global lastversion_", TagPrefix);
    NotStartsWithLonger(line, "%global lastversion_", DirPrefix);
  }

  /** A line without prefix `p` has no prefix that extends `p`. */
  lemma NotStartsWithLonger(line: string, p: string, q: string)
    requires p <= q
    ensures Text.StartsWith(line, q) ==> Text.StartsWith(line, p)
  {
    if Text.StartsWith(line, q) {
      assert line[..|p|] == q[..|p|];
    }
  }

  /** The rewritten `upstream_version` macro line is read back by the scan as the new version. */
  lemma UpstreamVersionRewriteReadsBack(line: string, res: SpecRelease, packager: Option<string>, today: string)
    requires KindOf(line, res.moduleOf, SpecScan.Truthy(packager)) == UpstreamVersionDef
    requires |res.version.release| > 0
    ensures RewriteLine(line, res, packager, today).Ok?
    ensures var out := RewriteLine(line, res, packager, today).value;
      |out| == 1
      && SpecScan.Classify(out[0]) == SpecScan.UpstreamVersion
      && SpecScan.MacroValue(out[0]) == Some(ToString(res.version))
  {
    UpstreamVersionLineReadsBack(res.version);
  }

  lemma MacroValueOfDefinition(t: string)
    requires t != [] && Text.NoSpace(t)
    ensures SpecScan.MacroValue(UpstreamVersionPrefix + t) == Some(t)
  {
    var words := ["%global", "upstream_version", t];
    assert Text.Join(words[2..], " ") == t;
    assert Text.Join(words[1..], " ") == "upstream_version" + " " + t;
    assert UpstreamVersionPrefix + t == Text.Join(words, " ");
    Text.FieldsOfJoin(words);
  }

  /** The output of the loop over all of `lines`, before the insertions. */
  function Rewritten(lines: seq<string>, res: SpecRelease, packager: Option<string>, today: string)
    : Result<seq<string>, UpdateError>
    decreases |lines|
  {
    if lines == [] then Ok([])
    else
      match Rewritten(lines[..|lines| - 1], res, packager, today)
      case Err(e) => Err(e)
      case Ok(out) =>
        match RewriteLine(lines[|lines| - 1], res, packager, today)
        case Err(e) => Err(e)
        case Ok(piece) => Ok(out + piece)
  }

  /** Some line of `lines` starts with `prefix`. */
  predicate AnyStartsWith(lines: seq<string>, prefix: string)
    decreases |lines|
  {
    lines != [] && (Text.StartsWith(lines[|lines| - 1], prefix) || AnyStartsWith(lines[..|lines| - 1], prefix))
  }

  /** Once a line fails to rewrite, reading more lines does not change the failure. */
  lemma {:induction false} RewriteErrorPersists(
    lines: seq<string>, i: nat, res: SpecRelease, packager: Option<string>, today: string)
    requires i <= |lines| && Rewritten(lines[..i], res, packager, today).Err?
    ensures Rewritten(lines, res, packager, today) == Rewritten(lines[..i], res, packager, today)
    decreases |lines|
  {
    if i < |lines| {
      var pre := lines[..|lines| - 1];
      assert pre[..i] == lines[..i];
      RewriteErrorPersists(pre, i, res, packager, today);
    } else {
      assert lines[..i] == lines;
    }
  }

  /** An existing `%global lastversion_tag` line is rewritten to the new tag line. */
  lemma {:induction false} TagLineKept(lines: seq<string>, res: SpecRelease, packager: Option<string>, today: string)
    requires Rewritten(lines, res, packager, today).Ok? && AnyStartsWith(lines, TagPrefix)
    ensures TagLine(res) in Rewritten(lines, res, packager, today).value
    decreases |lines|
  {
    var n := |lines| - 1;
    if Text.StartsWith(lines[n], TagPrefix) {
      assert RewriteLine(lines[n], res, packager, today) == Ok([TagLine(res)]);
    } else {
      TagLineKept(lines[..n], res, packager, today);
    }
  }

  /** The index of the first `x` in `s` (`s.index(x)`). */
  function FirstIndex(s: seq<string>, x: string): (i: nat)
    requires x in s
    ensures i < |s| && s[i] == x && x !in s[..i]
  {
    if s[0] == x then 0
    else
      var j := FirstIndex(s[1..], x);
      assert s[..j + 1] == [s[0]] + s[1..][..j];
      j + 1
  }

  /** The lines after the insertions: a missing tag line goes first, a missing
      dir line right after the first tag line. */
  function Insertions(body: seq<string>, tagLine: string, dirLine: string, hasTag: bool, hasDir: bool)
    : seq<string>
    requires hasTag ==> tagLine in body
  {
    var withTag := if hasTag then body else [tagLine] + body;
    if hasDir then withTag
    else
      var i := FirstIndex(withTag, tagLine);
      withTag[..i + 1] + [dirLine] + withTag[i + 1..]
  }

  /** Where the insertions land. */
  lemma InsertionsPlacement(body: seq<string>, tagLine: string, dirLine: string, hasTag: bool, hasDir: bool)
    requires hasTag ==> tagLine in body
    ensures var r := Insertions(body, tagLine, dirLine, hasTag, hasDir);
      && tagLine in r
      && (!hasTag ==> r[0] == tagLine)
      && (!hasDir ==> FirstIndex(r, tagLine) + 1 < |r| && r[FirstIndex(r, tagLine) + 1] == dirLine)
  {
    var withTag := if hasTag then body else [tagLine] + body;
    assert tagLine in withTag;
    if !hasDir {
      var i := FirstIndex(withTag, tagLine);
      var r := withTag[..i + 1] + [dirLine] + withTag[i + 1..];
      assert r[..i] == withTag[..i];
      assert r[i] == tagLine;
    }
  }

  /** The insertions add the missing lines and nothing else. */
  lemma InsertionsAddOnlyMissingLines(body: seq<string>, tagLine: string, dirLine: string, hasTag: bool, hasDir: bool)
    requires hasTag ==> tagLine in body
    ensures var r := Insertions(body, tagLine, dirLine, hasTag, hasDir);
      multiset(r) == multiset(body)
                     + (if hasTag then multiset{} else multiset{tagLine})
                     + (if hasDir then multiset{} else multiset{dirLine})
  {
    var withTag := if hasTag then body else [tagLine] + body;
    assert multiset(withTag) == multiset(body) + (if hasTag then multiset{} else multiset{tagLine});
    if !hasDir {
      var i := FirstIndex(withTag, tagLine);
      assert withTag == withTag[..i + 1] + withTag[i + 1..];
    }
  }

  /** The lines `update_spec` writes, once the gate has let it through. */
  function UpdatedLines(lines: seq<string>, res: SpecRelease, packager: Option<string>, today: string)
    : Result<seq<string>, UpdateError>
  {
    match Rewritten(lines, res, packager, today)
    case Err(e) => Err(e)
    case Ok(body) =>
      var hasTag := AnyStartsWith(lines, TagPrefix);
      if hasTag then TagLineKept(lines, res, packager, today); Ok(Insertions(body, TagLine(res), DirLine(res), hasTag, AnyStartsWith(lines, DirPrefix)))
      else Ok(Insertions(body, TagLine(res), DirLine(res), hasTag, AnyStartsWith(lines, DirPrefix)))
  }

  lemma RewrittenSnoc(lines: seq<string>, i: nat, res: SpecRelease, packager: Option<string>, today: string)
    requires i < |lines|
    requires Rewritten(lines[..i], res, packager, today).Ok?
    ensures Rewritten(lines[..i + 1], res, packager, today)
         == match RewriteLine(lines[i], res, packager, today)
            case Err(e) => Err(e)
            case Ok(piece) => Ok(Rewritten(lines[..i], res, packager, today).value + piece)
  {
    assert lines[..i + 1][..i] == lines[..i];
  }

  lemma AnyStartsWithSnoc(lines: seq<string>, i: nat)
    requires i < |lines|
    ensures AnyStartsWith(lines[..i + 1], TagPrefix)
         == (Text.StartsWith(lines[i], TagPrefix) || AnyStartsWith(lines[..i], TagPrefix))
    ensures AnyStartsWith(lines[..i + 1], DirPrefix)
         == (Text.StartsWith(lines[i], DirPrefix) || AnyStartsWith(lines[..i], DirPrefix))
    ensures !(Text.StartsWith(lines[i], TagPrefix) && Text.StartsWith(lines[i], DirPrefix))
  {
    assert lines[..i + 1][..i] == lines[..i];
    assert TagPrefix[20] != DirPrefix[20];
  }

  /** The loop of `update_spec`: the rewritten lines, and whether a
      `lastversion_tag` and a `lastversion_dir` line were seen. */
  method RewriteLoop(lines: seq<string>, res: SpecRelease, packager: Option<string>, today: string)
    returns (r: Result<seq<string>, UpdateError>, tagPresent: bool, dirPresent: bool)
    ensures r == Rewritten(lines, res, packager, today)
    ensures r.Ok? ==> tagPresent == AnyStartsWith(lines, TagPrefix)
    ensures r.Ok? ==> dirPresent == AnyStartsWith(lines, DirPrefix)
  {
    tagPresent := false;
    dirPresent := false;
    var out: seq<string> := [];
    for i := 0 to |lines|
      invariant Rewritten(lines[..i], res, packager, today) == Ok(out)
      invariant tagPresent == AnyStartsWith(lines[..i], TagPrefix)
      invariant dirPresent == AnyStartsWith(lines[..i], DirPrefix)
    {
      var piece := RewriteLine(lines[i], res, packager, today);
      RewrittenSnoc(lines, i, res, packager, today);
      if piece.Err? {
        RewriteErrorPersists(lines, i + 1, res, packager, today);
        return Err(piece.error), tagPresent, dirPresent;
      }
      AnyStartsWithSnoc(lines, i);
      if Text.StartsWith(lines[i], TagPrefix) {
        tagPresent := true;
      } else if Text.StartsWith(lines[i], DirPrefix) {
        dirPresent := true;
      }
      out := out + piece.value;
    }
    assert lines[..|lines|] == lines;
    return Ok(out), tagPresent, dirPresent;
  }

  lemma UpdatedLinesOfBody(lines: seq<string>, res: SpecRelease, packager: Option<string>, today: string)
    requires Rewritten(lines, res, packager, today).Ok?
    requires AnyStartsWith(lines, TagPrefix) ==> TagLine(res) in Rewritten(lines, res, packager, today).value
    ensures UpdatedLines(lines, res, packager, today)
         == Ok(Insertions(Rewritten(lines, res, packager, today).value, TagLine(res), DirLine(res),
                          AnyStartsWith(lines, TagPrefix), AnyStartsWith(lines, DirPrefix)))
  {
  }

  /** The loop of `update_spec` and the insertions after it. */
  method RewriteSpecLines(lines: seq<string>, res: SpecRelease, packager: Option<string>, today: string)
    returns (r: Result<seq<string>, UpdateError>)
    ensures r == UpdatedLines(lines, res, packager, today)
  {
    var body, tagPresent, dirPresent := RewriteLoop(lines, res, packager, today);
    if body.Err? {
      return body;
    }
    var out := body.value;
    if !tagPresent {
      out := [TagLine(res)] + out;
    } else {
      TagLineKept(lines, res, packager, today);
    }
    UpdatedLinesOfBody(lines, res, packager, today);
    if !dirPresent {
      var index := FirstIndex(out, TagLine(res));
      out := out[..index + 1] + [DirLine(res)] + out[index + 1..];
    }
    assert out == Insertions(body.value, TagLine(res), DirLine(res), tagPresent, dirPresent);
    return Ok(out);
  }

  /** `update_spec`: the gate, then the rewrite; the file's new text on success. */
  method UpdateSpec(lines: seq<string>, res: SpecRelease, sem: string, packager: Option<string>, today: string)
    returns (r: Result<string, UpdateError>)
    ensures Gate(res.currentVersion, res.version, sem).Some? ==> r == Err(Gate(res.currentVersion, res.version, sem).value)
    ensures Gate(res.currentVersion, res.version, sem).None? ==>
      match UpdatedLines(lines, res, packager, today)
      case Err(e) => r == Err(e)
      case Ok(out) => r == Ok(Text.Join(out, "\n"))
  {
    var stop := Gate(res.currentVersion, res.version, sem);
    if stop.Some? {
      return Err(stop.value);
    }
    var out := RewriteSpecLines(lines, res, packager, today);
    if out.Err? {
      return Err(out.error);
    }
    return Ok(Text.Join(out.value, "\n"));
  }
}
