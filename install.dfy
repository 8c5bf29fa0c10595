/**
 * `install_release`: which of a release's assets lastversion installs, and
 * under what file name an AppImage is installed. Downloading, `chmod`, the
 * package manager and the desktop-file extraction are not part of the model;
 * the result says which installer runs on what.
 */
module Install {
  import opened Wrappers
  import Text

  /** `install_app_image`'s file name: `.AppImage` is appended unless already there. */
  function AppImageName(installName: string): (r: string)
    ensures Text.EndsWith(r, ".AppImage")
    ensures Text.EndsWith(installName, ".AppImage") ==> r == installName
    ensures !Text.EndsWith(installName, ".AppImage") ==> r == installName + ".AppImage"
  {
    if Text.EndsWith(installName, ".AppImage") then installName else installName + ".AppImage"
  }

  /** Naming a file that is already an AppImage's name changes nothing. */
  lemma AppImageNameIdempotent(installName: string)
    ensures AppImageName(AppImageName(installName)) == AppImageName(installName)
  {
  }

  predicate IsAppImage(asset: string) {
    Text.EndsWith(asset, ".AppImage")
  }

  predicate IsRpm(asset: string) {
    Text.EndsWith(asset, ".rpm")
  }

  /** A static binary: no `.` in the last path segment of its URL. */
  predicate IsStatic(asset: string) {
    '.' !in Text.AfterLast(asset, '/')
  }

  /** A list comprehension `[a for a in assets if keep(a)]`. */
  function Keep(assets: seq<string>, keep: string -> bool): (r: seq<string>)
    ensures |r| <= |assets|
    ensures forall i :: 0 <= i < |r| ==> keep(r[i]) && r[i] in assets
    ensures forall i :: 0 <= i < |assets| && keep(assets[i]) ==> assets[i] in r
    decreases |assets|
  {
    if assets == [] then []
    else (if keep(assets[0]) then [assets[0]] else []) + Keep(assets[1..], keep)
  }

  /** The first element kept is the first element of `assets` that `keep` accepts. */
  lemma {:induction false} KeepHead(assets: seq<string>, keep: string -> bool, i: nat)
    requires i < |assets| && keep(assets[i])
    requires forall j :: 0 <= j < i ==> !keep(assets[j])
    ensures Keep(assets, keep) != [] && Keep(assets, keep)[0] == assets[i]
    decreases i
  {
    if i > 0 {
      KeepHead(assets[1..], keep, i - 1);
    }
  }

  /** The kept elements keep their order: keeping is a filter of the list. */
  lemma {:induction false} KeepConcat(a: seq<string>, b: seq<string>, keep: string -> bool)
    ensures Keep(a + b, keep) == Keep(a, keep) + Keep(b, keep)
    decreases |a|
  {
    if a != [] {
      assert (a + b)[0] == a[0];
      assert (a + b)[1..] == a[1..] + b;
      KeepConcat(a[1..], b, keep);
      var h := if keep(a[0]) then [a[0]] else [];
      assert Keep(a + b, keep) == h + Keep(a[1..] + b, keep);
      assert Keep(a, keep) == h + Keep(a[1..], keep);
    } else {
      assert a + b == b;
    }
  }

  /** Some element satisfies `p`. */
  predicate AnyOf(assets: seq<string>, p: string -> bool) {
    exists i :: 0 <= i < |assets| && p(assets[i])
  }

  /** A comprehension is empty exactly when no element is kept. */
  lemma KeepEmpty(assets: seq<string>, keep: string -> bool)
    ensures Keep(assets, keep) == [] <==> !AnyOf(assets, keep)
  {
    var r := Keep(assets, keep);
    if r != [] {
      assert r[0] in assets;
    }
  }

  /** What `install_release` hands the assets to. */
  datatype Installation =
    | AppImage(url: string, fileName: string)
    | Rpms(urls: seq<string>)
    | Standalone(url: string, fileName: string)

  /** "No installable assets found to install": exit code 1. */
  const NoInstallableAssets: nat := 1

  /** `install_release`: the first AppImage if there is one, else all RPMs if
      there are any, else the first static binary, else an error. The installed
      name is the release's `install_name` when it has one, else the repo argument. */
  function InstallRelease(assets: seq<string>, installName: Option<string>, repo: string)
    : (r: Result<Installation, nat>)
    ensures r.Ok? && r.value.AppImage? <==> AnyOf(assets, IsAppImage)
    ensures r.Ok? && r.value.Rpms? <==> !AnyOf(assets, IsAppImage) && AnyOf(assets, IsRpm)
    ensures r.Ok? && r.value.Standalone? <==> !AnyOf(assets, IsAppImage) && !AnyOf(assets, IsRpm) && AnyOf(assets, IsStatic)
    ensures r.Err? <==> !AnyOf(assets, IsAppImage) && !AnyOf(assets, IsRpm) && !AnyOf(assets, IsStatic)
    ensures r.Err? ==> r.error == NoInstallableAssets
    ensures r.Ok? && r.value.Rpms? ==> r.value.urls == Keep(assets, IsRpm)
    ensures r.Ok? && (r.value.AppImage? || r.value.Standalone?) ==>
      r.value.url in assets
    ensures r.Ok? && r.value.AppImage? ==>
      IsAppImage(r.value.url) && r.value.fileName == AppImageName(if installName.Some? then installName.value else repo)
    ensures r.Ok? && r.value.Standalone? ==>
      IsStatic(r.value.url) && r.value.fileName == (if installName.Some? then installName.value else repo)
  {
    var name := if installName.Some? then installName.value else repo;
    var appImages := Keep(assets, IsAppImage);
    var rpms := Keep(assets, IsRpm);
    var statics := Keep(assets, IsStatic);
    KeepEmpty(assets, IsAppImage);
    KeepEmpty(assets, IsRpm);
    KeepEmpty(assets, IsStatic);
    if appImages != [] then Ok(AppImage(appImages[0], AppImageName(name)))
    else if rpms != [] then Ok(Rpms(rpms))
    else if statics != [] then Ok(Standalone(statics[0], name))
    else Err(NoInstallableAssets)
  }

  /** The asset installed is the first of its kind in the release's list. */
  lemma FirstOfItsKind(assets: seq<string>, installName: Option<string>, repo: string, i: nat)
    requires i < |assets|
    ensures IsAppImage(assets[i]) && (forall j :: 0 <= j < i ==> !IsAppImage(assets[j])) ==>
      InstallRelease(assets, installName, repo).Ok? && InstallRelease(assets, installName, repo).value.url == assets[i]
    ensures !AnyOf(assets, IsAppImage) && !AnyOf(assets, IsRpm) && IsStatic(assets[i]) && (forall j :: 0 <= j < i ==> !IsStatic(assets[j])) ==>
      InstallRelease(assets, installName, repo).Ok? && InstallRelease(assets, installName, repo).value.url == assets[i]
  {
    if IsAppImage(assets[i]) && (forall j :: 0 <= j < i ==> !IsAppImage(assets[j])) {
      KeepHead(assets, IsAppImage, i);
    }
    if IsStatic(assets[i]) && (forall j :: 0 <= j < i ==> !IsStatic(assets[j])) {
      KeepHead(assets, IsStatic, i);
    }
  }

  /** The three kinds never overlap: an AppImage or RPM URL has a `.` in its
      last segment, so the static-binary rule cannot pick one of them. */
  lemma {:induction false} StaticIsNoPackage(asset: string)
    ensures IsStatic(asset) ==> !IsAppImage(asset) && !IsRpm(asset)
    ensures !(IsAppImage(asset) && IsRpm(asset))
  {
    DottedSuffixInLastSegment(asset, ".AppImage");
    DottedSuffixInLastSegment(asset, ".rpm");
    assert ".AppImage"[8] != ".rpm"[3];
  }

  /** A suffix without `/` lies within the last path segment. */
  lemma {:induction false} DottedSuffixInLastSegment(asset: string, suffix: string)
    requires suffix != [] && suffix[0] == '.' && '/' !in suffix
    ensures Text.EndsWith(asset, suffix) ==> '.' in Text.AfterLast(asset, '/')
    ensures Text.EndsWith(asset, suffix) ==> asset[|asset| - 1] == suffix[|suffix| - 1]
  {
    var seg := Text.AfterLast(asset, '/');
    if Text.EndsWith(asset, suffix) {
      var k := |asset| - |suffix|;
      assert asset[k] == '.';
      assert |seg| >= |suffix|;
      assert seg[k - (|asset| - |seg|)] == asset[k];
    }
  }
}
