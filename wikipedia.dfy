/**
 * The Wikipedia project holder: it reads the "Latest release" / "Stable
 * release" row of an article's infobox, cleans the row's text into a tag
 * name and hands that to the version sanitizer.
 *
 * Fetching the article and selecting HTML elements are left to the caller:
 * the infobox arrives as a list of links, each with the text of the data cell
 * of the row it labels.
 */
module WikipediaRepoSession {
  import opened Wrappers
  import Text
  import opened Versions

  /** Whole tokens that mark a development release. */
  const DevMarkers: seq<string> := ["devel", "test", "dev"]

  /** `re.match('^p(\d+)$', part)`: a `p` followed by digits only. Python's `$`
      also matches just before a final newline, so one trailing "\n" is allowed. */
  predicate IsPostToken(part: string) {
    |part| >= 2 && part[0] == 'p' &&
    var digits := if part[|part| - 1] == '\n' then part[1..|part| - 1] else part[1..];
    digits != [] && Text.AllDigits(digits)
  }

  /** `re.sub('^p(\d+)$', 'post\1', part, 1)`. */
  function SubPost(part: string): (r: string)
    ensures r != part <==> IsPostToken(part)
    ensures r != part ==> r == "post" + part[1..]
  {
    if IsPostToken(part) then "post" + part[1..] else part
  }

  /** The rewrite `remove_words` applies to each space-separated token. */
  function RewriteToken(part: string): string {
    if part in DevMarkers then "dev0" else SubPost(part)
  }

  /** What one token contributes: its rewrite, unless that is purely alphabetic. */
  function Kept(part: string): seq<string> {
    var t := RewriteToken(part);
    if Text.IsAlpha(t) then [] else [t]
  }

  /** The rewritten tokens that are not purely alphabetic, in order. */
  function KeptTokens(parts: seq<string>): seq<string>
    decreases |parts|
  {
    if parts == [] then [] else Kept(parts[0]) + KeptTokens(parts[1..])
  }

  /** What `remove_words(title)` returns. */
  function WordsRemoved(title: string): string {
    Text.Join(KeptTokens(Text.Split(title, ' ')), " ")
  }

  lemma {:induction false} KeptTokensAppend(a: seq<string>, b: seq<string>)
    ensures KeptTokens(a + b) == KeptTokens(a) + KeptTokens(b)
    decreases |a|
  {
    if a == [] {
      assert a + b == b;
    } else {
      assert (a + b)[0] == a[0];
      assert (a + b)[1..] == a[1..] + b;
      KeptTokensAppend(a[1..], b);
    }
  }

  lemma KeptTokensSingle(part: string)
    ensures KeptTokens([part]) == Kept(part)
  {
    assert [part][1..] == [];
  }

  lemma KeptTokensSnoc(parts: seq<string>, i: nat)
    requires i < |parts|
    ensures KeptTokens(parts[..i + 1]) == KeptTokens(parts[..i]) + Kept(parts[i])
  {
    KeptTokensAppend(parts[..i], [parts[i]]);
    KeptTokensSingle(parts[i]);
    assert parts[..i + 1] == parts[..i] + [parts[i]];
  }

  /** `remove_words`: split on single spaces, rewrite development and post
      markers, drop the purely alphabetic tokens, join with single spaces. */
  method RemoveWords(title: string) returns (r: string)
    ensures r == WordsRemoved(title)
  {
    var parts := Text.Split(title, ' ');
    var partsN: seq<string> := [];
    for i := 0 to |parts|
      invariant partsN == KeptTokens(parts[..i])
    {
      var part := parts[i];
      if part in DevMarkers {
        part := "dev0";
      } else {
        part := SubPost(part);
      }
      if !Text.IsAlpha(part) {
        partsN := partsN + [part];
      }
      KeptTokensSnoc(parts, i);
    }
    assert parts[..|parts|] == parts;
    r := Text.Join(partsN, " ");
  }

  /** Exactly the tokens `devel`, `test` and `dev` are turned into `dev0`;
      besides them only `dev0` itself comes out as `dev0`. */
  lemma DevMarkerRewrite(part: string)
    ensures part in DevMarkers ==> RewriteToken(part) == "dev0"
    ensures RewriteToken(part) == "dev0" <==> part in DevMarkers || part == "dev0"
  {
    if IsPostToken(part) {
      assert SubPost(part)[..4] == "post";
    }
  }

  /** Outside the development markers, a token changes exactly when it is a
      whole `p<digits>` token, and then `p` becomes `post` before the same digits. */
  lemma PostMarkerRewrite(part: string)
    requires part !in DevMarkers
    ensures RewriteToken(part) != part <==> IsPostToken(part)
    ensures IsPostToken(part) ==> RewriteToken(part) == "post" + part[1..]
  {
    if IsPostToken(part) {
      assert RewriteToken(part)[1] == 'o' != part[1];
    }
  }

  /** Tokens that only contain a `p` followed by digits are left alone; since
      titles are split on spaces only, `2.3.4-p2` is one such token. */
  lemma PostMarkerNeedsWholeToken()
    ensures RewriteToken("p") == "p"
    ensures RewriteToken("p1a") == "p1a"
    ensures RewriteToken("2.3.4-p2") == "2.3.4-p2"
    ensures RewriteToken("p12") == "post12"
  {
    assert !IsPostToken("p1a") by {
      assert !Text.IsDigit('a');
    }
  }

  /** The positions of the tokens that survive, in increasing order. */
  function KeptIndices(parts: seq<string>): seq<nat>
    decreases |parts|
  {
    if parts == [] then []
    else
      var n := |parts| - 1;
      KeptIndices(parts[..n]) + (if Text.IsAlpha(RewriteToken(parts[n])) then [] else [n])
  }

  /** There is one kept position per survivor, and never more survivors than tokens. */
  lemma {:induction false} KeptIndicesCount(parts: seq<string>)
    ensures |KeptIndices(parts)| == |KeptTokens(parts)| <= |parts|
    decreases |parts|
  {
    if parts != [] {
      var n := |parts| - 1;
      var tail: seq<nat> := if Text.IsAlpha(RewriteToken(parts[n])) then [] else [n];
      KeptIndicesCount(parts[..n]);
      KeptTokensSnoc(parts, n);
      assert parts[..n + 1] == parts;
      assert |KeptIndices(parts)| == |KeptIndices(parts[..n])| + |tail|;
      assert |KeptTokens(parts)| == |KeptTokens(parts[..n])| + |Kept(parts[n])|;
    }
  }

  predicate AllBelow(idx: seq<nat>, bound: nat) {
    forall k :: 0 <= k < |idx| ==> idx[k] < bound
  }

  predicate StrictlyIncreasing(idx: seq<nat>) {
    forall k, l :: 0 <= k < l < |idx| ==> idx[k] < idx[l]
  }

  /** The survivors keep their relative order: their positions are in range
      and strictly increasing. */
  lemma {:induction false} KeptIndicesAreOrdered(parts: seq<string>)
    ensures AllBelow(KeptIndices(parts), |parts|)
    ensures StrictlyIncreasing(KeptIndices(parts))
    decreases |parts|
  {
    if parts != [] {
      var n := |parts| - 1;
      var prev := KeptIndices(parts[..n]);
      var tail: seq<nat> := if Text.IsAlpha(RewriteToken(parts[n])) then [] else [n];
      KeptIndicesAreOrdered(parts[..n]);
      assert AllBelow(prev, n);
      assert KeptIndices(parts) == prev + tail;
      forall k | 0 <= k < |prev + tail|
        ensures (prev + tail)[k] < |parts|
      {
        if k < |prev| {
          assert (prev + tail)[k] == prev[k];
        } else {
          assert (prev + tail)[k] == n;
        }
      }
      forall k, l | 0 <= k < l < |prev + tail|
        ensures (prev + tail)[k] < (prev + tail)[l]
      {
        assert k < |prev| && (prev + tail)[k] == prev[k];
        if l < |prev| {
          assert (prev + tail)[l] == prev[l];
        } else {
          assert (prev + tail)[l] == n;
        }
      }
    }
  }

  /** Wherever it stands, a token is dropped exactly when it is purely
      alphabetic after rewriting (so empty tokens from repeated spaces stay),
      independently of its neighbours. */
  lemma DroppedExactlyWhenAlpha(before: seq<string>, part: string, after: seq<string>)
    ensures KeptTokens(before + [part] + after)
         == KeptTokens(before) + (if Text.IsAlpha(RewriteToken(part)) then [] else [RewriteToken(part)]) + KeptTokens(after)
  {
    KeptTokensAppend(before + [part], after);
    KeptTokensAppend(before, [part]);
    KeptTokensSingle(part);
  }

  /** Each survivor is the rewrite of the token at its position. */
  lemma {:induction false} KeptTokensAreSurvivors(parts: seq<string>)
    ensures var idx := KeptIndices(parts);
      && |idx| == |KeptTokens(parts)|
      && (forall k :: 0 <= k < |idx| ==> idx[k] < |parts| && KeptTokens(parts)[k] == RewriteToken(parts[idx[k]]))
    decreases |parts|
  {
    if parts != [] {
      var n := |parts| - 1;
      var pre := parts[..n];
      KeptTokensAreSurvivors(pre);
      KeptTokensSnoc(parts, n);
      assert parts[..n + 1] == parts;
      assert forall j :: 0 <= j < n ==> pre[j] == parts[j];
    }
  }

  /** A rewritten token is a fixed point of the rewrite. */
  lemma RewriteTokenIdempotent(part: string)
    ensures RewriteToken(RewriteToken(part)) == RewriteToken(part)
  {
    var t := RewriteToken(part);
    if part in DevMarkers {
      assert t == "dev0";
      assert !IsPostToken(t);
    } else if IsPostToken(part) {
      assert t[1] == 'o';
      assert t !in DevMarkers;
      assert !IsPostToken(t) by {
        assert !Text.IsDigit(t[1]);
      }
    }
  }

  /** Every token that survives is its own rewrite, is not purely alphabetic,
      and, when the tokens had no space, has none. */
  lemma {:induction false} KeptTokensAreStable(parts: seq<string>)
    requires forall k :: 0 <= k < |parts| ==> ' ' !in parts[k]
    ensures forall k :: 0 <= k < |KeptTokens(parts)| ==>
      var t := KeptTokens(parts)[k];
      ' ' !in t && RewriteToken(t) == t && !Text.IsAlpha(t)
    decreases |parts|
  {
    if parts != [] {
      KeptTokensAreStable(parts[1..]);
      RewriteTokenIdempotent(parts[0]);
      var t := RewriteToken(parts[0]);
      assert ' ' !in t by {
        if IsPostToken(parts[0]) {
          assert t == "post" + parts[0][1..];
        }
      }
    }
  }

  lemma {:induction false} KeptTokensOfStable(parts: seq<string>)
    requires forall k :: 0 <= k < |parts| ==> RewriteToken(parts[k]) == parts[k] && !Text.IsAlpha(parts[k])
    ensures KeptTokens(parts) == parts
    decreases |parts|
  {
    if parts != [] {
      KeptTokensOfStable(parts[1..]);
    }
  }

  /** `remove_words` is idempotent: its output contains no token it would
      rewrite or drop. */
  lemma WordsRemovedIdempotent(title: string)
    ensures WordsRemoved(WordsRemoved(title)) == WordsRemoved(title)
  {
    var parts := Text.Split(title, ' ');
    var kept := KeptTokens(parts);
    KeptTokensAreStable(parts);
    if kept == [] {
      assert WordsRemoved(title) == "";
      assert Text.Split("", ' ') == [""];
      assert !Text.IsAlpha(RewriteToken(""));
    } else {
      Text.SplitOfJoin(kept, ' ');
      KeptTokensOfStable(kept);
    }
  }

  /** The cleaned title never has more space-separated tokens than the title. */
  lemma WordsRemovedHasNoMoreTokens(title: string)
    ensures |Text.Split(WordsRemoved(title), ' ')| <= |Text.Split(title, ' ')|
  {
    var parts := Text.Split(title, ' ');
    var kept := KeptTokens(parts);
    KeptIndicesCount(parts);
    KeptTokensAreStable(parts);
    if kept != [] {
      Text.SplitOfJoin(kept, ' ');
    } else {
      assert Text.Split("", ' ') == [""];
    }
  }

  /** The tag name: the cleaned title up to its first `/`. */
  function TagText(data: string): (tag: string)
    ensures '/' !in tag && tag <= WordsRemoved(data)
    ensures |tag| < |WordsRemoved(data)| ==> WordsRemoved(data)[|tag|] == '/'
  {
    Text.Split(WordsRemoved(data), '/')[0]
  }

  /** One link of the infobox: its text, and the data cell of the row it sits
      in (its text once `sup` and `span` elements are removed, and the text of
      its `span.published`, whose date parsing is not modelled). */
  datatype InfoboxLink = InfoboxLink(caption: string, data: string, published: string)

  /** The release record `get_latest` returns. */
  datatype Release = Release(title: string, tagDate: string, tagName: string, version: Version)

  predicate IsReleaseCaption(caption: string) {
    Text.Lower(caption) in ["latest release", "stable release"]
  }

  /** The position of the first link labelled as a latest or stable release. */
  function FirstReleaseLink(links: seq<InfoboxLink>): (r: Option<nat>)
    ensures r.Some? ==> r.value < |links| && IsReleaseCaption(links[r.value].caption)
    ensures r.Some? ==> forall j :: 0 <= j < r.value ==> !IsReleaseCaption(links[j].caption)
    ensures r.None? ==> forall j :: 0 <= j < |links| ==> !IsReleaseCaption(links[j].caption)
    decreases |links|
  {
    if links == [] then None
    else if IsReleaseCaption(links[0].caption) then Some(0)
    else
      match FirstReleaseLink(links[1..])
      case None => None
      case Some(i) => Some(i + 1)
  }

  /** Links after the first release link never change which one is used. */
  lemma {:induction false} LaterLinksIgnored(links: seq<InfoboxLink>, more: seq<InfoboxLink>)
    requires FirstReleaseLink(links).Some?
    ensures FirstReleaseLink(links + more) == FirstReleaseLink(links)
    decreases |links|
  {
    if !IsReleaseCaption(links[0].caption) {
      assert (links + more)[1..] == links[1..] + more;
      LaterLinksIgnored(links[1..], more);
    }
  }

  /** The loop of `get_latest` over the infobox links, up to its `break`. */
  method FindReleaseLink(links: seq<InfoboxLink>) returns (found: Option<nat>)
    ensures found == FirstReleaseLink(links)
  {
    found := None;
    var i := 0;
    while i < |links|
      invariant 0 <= i <= |links|
      invariant forall j :: 0 <= j < i ==> !IsReleaseCaption(links[j].caption)
    {
      if IsReleaseCaption(links[i].caption) {
        found := Some(i);
        break;
      }
      i := i + 1;
    }
  }

  /** `get_latest`: the first release row of the infobox gives the tag name;
      an empty tag name or one the sanitizer rejects gives `None`. */
  method GetLatest(links: seq<InfoboxLink>, sanitize: Sanitizer, preOk: bool, major: Option<string>)
    returns (ret: Option<Release>)
    ensures FirstReleaseLink(links).None? ==> ret.None?
    ensures FirstReleaseLink(links).Some? ==>
      var link := links[FirstReleaseLink(links).value];
      var tagName := TagText(link.data);
      var version := sanitize(tagName, preOk, major);
      ret == if tagName == "" || version.None? then None
             else Some(Release(link.data, link.published, tagName, version.value))
    ensures ret.Some? ==> ret.value.tagName != [] && '/' !in ret.value.tagName
    ensures ret.Some? ==>
      var cleaned := WordsRemoved(ret.value.title);
      ret.value.tagName <= cleaned
      && (|ret.value.tagName| < |cleaned| ==> cleaned[|ret.value.tagName|] == '/')
  {
    ret := None;
    var found := FindReleaseLink(links);
    if found.None? {
      return None;
    }
    var link := links[found.value];
    var cleaned := RemoveWords(link.data);
    var tagName := Text.Split(cleaned, '/')[0];
    if tagName == "" {
      return None;
    }
    var version := sanitize(tagName, preOk, major);
    if version.None? {
      return None;
    }
    // `ret` is still None, so `not ret` holds and the record is always taken.
    ret := Some(Release(link.data, link.published, tagName, version.value));
  }
}
