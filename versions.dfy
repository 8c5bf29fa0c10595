/**
 * The version values lastversion compares. The ordering engine itself lives in
 * a module that is not part of this model; here a version is reduced to its
 * release tuple, ordered lexicographically, and the sanitizer and the parser
 * that build versions are parameters of the operations that use them.
 */
module Versions {
  import opened Wrappers
  import Text

  /** A release version such as 1.2.3, kept as its release tuple. */
  datatype Version = Version(release: seq<nat>)

  /** Strict lexicographic order on release tuples; a proper prefix sorts first. */
  predicate ReleaseLess(a: seq<nat>, b: seq<nat>)
    decreases |a|
  {
    if |a| == 0 then |b| > 0
    else if |b| == 0 then false
    else a[0] < b[0] || (a[0] == b[0] && ReleaseLess(a[1..], b[1..]))
  }

  /** `a < b` on versions. */
  predicate Less(a: Version, b: Version) {
    ReleaseLess(a.release, b.release)
  }

  lemma {:induction false} ReleaseLessIrreflexive(a: seq<nat>)
    ensures !ReleaseLess(a, a)
    decreases |a|
  {
    if |a| > 0 {
      ReleaseLessIrreflexive(a[1..]);
    }
  }

  lemma {:induction false} ReleaseLessTransitive(a: seq<nat>, b: seq<nat>, c: seq<nat>)
    requires ReleaseLess(a, b) && ReleaseLess(b, c)
    ensures ReleaseLess(a, c)
    decreases |a|
  {
    if |a| > 0 && a[0] == b[0] && b[0] == c[0] {
      ReleaseLessTransitive(a[1..], b[1..], c[1..]);
    }
  }

  lemma {:induction false} ReleaseLessTrichotomy(a: seq<nat>, b: seq<nat>)
    ensures a == b || ReleaseLess(a, b) || ReleaseLess(b, a)
    decreases |a|
  {
    if |a| > 0 && |b| > 0 && a[0] == b[0] {
      ReleaseLessTrichotomy(a[1..], b[1..]);
      if a[1..] == b[1..] {
        assert a == [a[0]] + a[1..] && b == [b[0]] + b[1..];
      }
    }
  }

  lemma {:induction false} ReleaseLessAsymmetric(a: seq<nat>, b: seq<nat>)
    requires ReleaseLess(a, b)
    ensures !ReleaseLess(b, a)
  {
    if ReleaseLess(b, a) {
      ReleaseLessTransitive(a, b, a);
      ReleaseLessIrreflexive(a);
    }
  }

  /** The order on versions is a strict total order. */
  lemma LessIsStrictTotalOrder(a: Version, b: Version, c: Version)
    ensures !Less(a, a)
    ensures Less(a, b) ==> !Less(b, a)
    ensures Less(a, b) && Less(b, c) ==> Less(a, c)
    ensures a == b || Less(a, b) || Less(b, a)
  {
    ReleaseLessIrreflexive(a.release);
    if Less(a, b) {
      ReleaseLessAsymmetric(a.release, b.release);
      if Less(b, c) {
        ReleaseLessTransitive(a.release, b.release, c.release);
      }
    }
    ReleaseLessTrichotomy(a.release, b.release);
  }

  predicate IsVersionChar(c: char) {
    Text.IsDigit(c) || c == '.'
  }

  /** `str(version)`: the release numbers joined by dots, as "1.2.3". */
  function ToString(v: Version): (s: string)
    ensures forall i :: 0 <= i < |s| ==> IsVersionChar(s[i])
  {
    DottedNumbers(v.release)
  }

  function DottedNumbers(ns: seq<nat>): (s: string)
    ensures forall i :: 0 <= i < |s| ==> IsVersionChar(s[i])
    ensures |ns| > 0 ==> s != [] && Text.IsDigit(s[0])
    decreases |ns|
  {
    if |ns| == 0 then ""
    else if |ns| == 1 then Text.NatToString(ns[0])
    else Text.NatToString(ns[0]) + "." + DottedNumbers(ns[1..])
  }

  /** `sanitize_version(text, pre_ok, major)`: a partial function from free text to a version. */
  type Sanitizer = (string, bool, Option<string>) -> Option<Version>

  /** `Version(text)`: parsing a well-formed version string, `None` for `InvalidVersion`. */
  type Parser = string -> Option<Version>
}
