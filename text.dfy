/**
 * The parts of Python's `str` that lastversion relies on, restricted to ASCII:
 * whitespace, digits and letters are the ASCII members of Python's classes.
 */
module Text {

  /** `c.isspace()` over ASCII: space, \t \n \v \f \r and the separators 0x1C..0x1F. */
  predicate IsSpace(c: char) {
    c == ' ' || ('\t' <= c <= '\r') || ('\U{1C}' <= c <= '\U{1F}')
  }

  predicate IsDigit(c: char) {
    '0' <= c <= '9'
  }

  predicate IsLetter(c: char) {
    'a' <= c <= 'z' || 'A' <= c <= 'Z'
  }

  /** `s.isalpha()`: at least one character, and letters only (so `"".isalpha()` is false). */
  predicate IsAlpha(s: string) {
    |s| > 0 && AllLetters(s)
  }

  predicate AllLetters(s: string)
    decreases |s|
  {
    s == [] || (IsLetter(s[0]) && AllLetters(s[1..]))
  }

  predicate AllDigits(s: string) {
    forall i :: 0 <= i < |s| ==> IsDigit(s[i])
  }

  predicate StartsWith(s: string, prefix: string) {
    prefix <= s
  }

  predicate EndsWith(s: string, suffix: string) {
    |suffix| <= |s| && s[|s| - |suffix|..] == suffix
  }

  /** `sub in s` for two strings. */
  predicate Contains(s: string, sub: string)
    decreases |s|
  {
    StartsWith(s, sub) || (|s| > 0 && Contains(s[1..], sub))
  }

  /** The index of the first `c` in `s` (`s.index(c)`). */
  function IndexOf(s: string, c: char): (i: nat)
    requires c in s
    ensures i < |s| && s[i] == c && c !in s[..i]
  {
    if s[0] == c then 0
    else
      var j := IndexOf(s[1..], c);
      assert s[..j + 1] == [s[0]] + s[1..][..j];
      j + 1
  }

  /** The part of `s` after its last `c`, all of `s` when there is none
      (`s.rsplit(c, 1)[-1]`, and `os.path.basename` for `c == '/'`). */
  function AfterLast(s: string, c: char): (r: string)
    ensures EndsWith(s, r) && c !in r
    ensures |r| < |s| ==> s[|s| - |r| - 1] == c
    decreases |s|
  {
    if |s| == 0 || s[|s| - 1] == c then ""
    else
      var r := AfterLast(s[..|s| - 1], c) + [s[|s| - 1]];
      assert s[|s| - |r|..] == s[..|s| - 1][|s| - |r|..] + [s[|s| - 1]];
      r
  }

  /** Whatever precedes the last `c`, the part after it is the tail that holds no `c`. */
  lemma {:induction false} AfterLastOfSuffix(s: string, c: char, x: string)
    requires c !in x
    ensures AfterLast(s + [c] + x, c) == x
    decreases |x|
  {
    if x != [] {
      var t := s + [c] + x;
      var x' := x[..|x| - 1];
      assert t[..|t| - 1] == s + [c] + x';
      assert c !in x' by {
        assert forall i :: 0 <= i < |x'| ==> x'[i] == x[i];
      }
      AfterLastOfSuffix(s, c, x');
      assert x == x' + [x[|x| - 1]];
    }
  }

  /** `sep.join(parts)`. */
  function Join(parts: seq<string>, sep: string): string
    decreases |parts|
  {
    if |parts| == 0 then ""
    else if |parts| == 1 then parts[0]
    else parts[0] + sep + Join(parts[1..], sep)
  }

  /** `s.split(sep)` for a one-character separator: the pieces between the
      separators, empty pieces included, so that joining them gives back `s`. */
  function Split(s: string, sep: char): (parts: seq<string>)
    ensures |parts| >= 1 && parts[0] <= s
    ensures |parts[0]| < |s| ==> s[|parts[0]|] == sep
    ensures forall k :: 0 <= k < |parts| ==> sep !in parts[k]
    ensures Join(parts, [sep]) == s
    decreases |s|
  {
    if sep !in s then [s]
    else
      var i := IndexOf(s, sep);
      var rest := Split(s[i + 1..], sep);
      assert s == s[..i] + [sep] + s[i + 1..];
      [s[..i]] + rest
  }

  /** Splitting a join of separator-free pieces gives back the pieces. */
  lemma {:induction false} SplitOfJoin(parts: seq<string>, sep: char)
    requires |parts| >= 1
    requires forall k :: 0 <= k < |parts| ==> sep !in parts[k]
    ensures Split(Join(parts, [sep]), sep) == parts
    decreases |parts|
  {
    if |parts| > 1 {
      var s := Join(parts, [sep]);
      var rest := Join(parts[1..], [sep]);
      var n := |parts[0]|;
      assert s == parts[0] + [sep] + rest;
      assert s[n] == sep;
      assert s[..n] == parts[0];
      var i := IndexOf(s, sep);
      assert i == n;
      assert s[i + 1..] == rest;
      SplitOfJoin(parts[1..], sep);
    }
  }

  /** `s.lstrip()`. */
  function LStrip(s: string): (r: string)
    ensures EndsWith(s, r)
    ensures r == [] || !IsSpace(r[0])
    ensures forall i :: 0 <= i < |s| - |r| ==> IsSpace(s[i])
    decreases |s|
  {
    if |s| > 0 && IsSpace(s[0]) then LStrip(s[1..]) else s
  }

  /** `s.rstrip()`. */
  function RStrip(s: string): (r: string)
    ensures r <= s
    ensures r == [] || !IsSpace(r[|r| - 1])
    ensures forall i :: |r| <= i < |s| ==> IsSpace(s[i])
    decreases |s|
  {
    if |s| > 0 && IsSpace(s[|s| - 1]) then RStrip(s[..|s| - 1]) else s
  }

  /** `s.strip()`. */
  function Strip(s: string): string {
    RStrip(LStrip(s))
  }

  /** `s.lstrip(c)` for a single character `c`. */
  function LStripChar(s: string, c: char): (r: string)
    ensures EndsWith(s, r)
    ensures r == [] || r[0] != c
    ensures forall i :: 0 <= i < |s| - |r| ==> s[i] == c
    decreases |s|
  {
    if |s| > 0 && s[0] == c then LStripChar(s[1..], c) else s
  }

  /** `s.lstrip(string.digits)`. */
  function LStripDigits(s: string): (r: string)
    ensures EndsWith(s, r)
    ensures r == [] || !IsDigit(r[0])
    ensures forall i :: 0 <= i < |s| - |r| ==> IsDigit(s[i])
    decreases |s|
  {
    if |s| > 0 && IsDigit(s[0]) then LStripDigits(s[1..]) else s
  }

  /** The longest whitespace prefix of `s` (what a greedy `\s*` takes). */
  function LeadingSpace(s: string): (w: string)
    ensures w <= s
    ensures forall i :: 0 <= i < |w| ==> IsSpace(w[i])
    ensures |w| < |s| ==> !IsSpace(s[|w|])
    decreases |s|
  {
    if |s| > 0 && IsSpace(s[0]) then [s[0]] + LeadingSpace(s[1..]) else ""
  }

  /** The longest whitespace-free prefix of `s` (what a greedy `\S*` takes). */
  function LeadingWord(s: string): (w: string)
    ensures w <= s
    ensures forall i :: 0 <= i < |w| ==> !IsSpace(w[i])
    ensures |w| < |s| ==> IsSpace(s[|w|])
    decreases |s|
  {
    if |s| > 0 && !IsSpace(s[0]) then [s[0]] + LeadingWord(s[1..]) else ""
  }

  predicate AllSpace(s: string) {
    forall i :: 0 <= i < |s| ==> IsSpace(s[i])
  }

  predicate NoSpace(s: string) {
    forall i :: 0 <= i < |s| ==> !IsSpace(s[i])
  }

  lemma {:induction false} LeadingSpaceOfJoin(ws: string, rest: string)
    requires AllSpace(ws)
    requires rest == [] || !IsSpace(rest[0])
    ensures LeadingSpace(ws + rest) == ws
    decreases |ws|
  {
    if ws != [] {
      assert (ws + rest)[1..] == ws[1..] + rest;
      LeadingSpaceOfJoin(ws[1..], rest);
    }
  }

  lemma {:induction false} LStripOfJoin(ws: string, rest: string)
    requires AllSpace(ws)
    requires rest == [] || !IsSpace(rest[0])
    ensures LStrip(ws + rest) == rest
    decreases |ws|
  {
    if ws != [] {
      assert (ws + rest)[1..] == ws[1..] + rest;
      LStripOfJoin(ws[1..], rest);
    }
  }

  lemma NoSpaceOfSuffix(s: string, r: string)
    requires NoSpace(s) && EndsWith(s, r)
    ensures NoSpace(r)
  {
    forall i | 0 <= i < |r|
      ensures !IsSpace(r[i])
    {
      assert r[i] == s[|s| - |r|..][i];
    }
  }

  /** `s.split()`: the maximal runs of non-whitespace characters, in order. */
  function Fields(s: string): (fs: seq<string>)
    ensures forall k :: 0 <= k < |fs| ==> fs[k] != [] && NoSpace(fs[k])
    decreases |s|
  {
    if |s| == 0 then []
    else if IsSpace(s[0]) then Fields(s[1..])
    else
      var w := LeadingWord(s);
      [w] + Fields(s[|w|..])
  }

  lemma {:induction false} LeadingWordOfJoin(w: string, rest: string)
    requires NoSpace(w)
    requires rest == [] || IsSpace(rest[0])
    ensures LeadingWord(w + rest) == w
    decreases |w|
  {
    if w != [] {
      assert (w + rest)[1..] == w[1..] + rest;
      LeadingWordOfJoin(w[1..], rest);
    }
  }

  /** Joining non-empty whitespace-free words with single spaces and splitting
      on whitespace gives back the words. */
  lemma {:induction false} FieldsOfJoin(words: seq<string>)
    requires forall k :: 0 <= k < |words| ==> words[k] != [] && NoSpace(words[k])
    ensures Fields(Join(words, " ")) == words
    decreases |words|
  {
    if |words| == 1 {
      var w := words[0];
      LeadingWordOfJoin(w, "");
      assert w + "" == w;
      assert w[|w|..] == [];
    } else if |words| > 1 {
      var w := words[0];
      var rest := " " + Join(words[1..], " ");
      var s := w + rest;
      assert Join(words, " ") == s;
      LeadingWordOfJoin(w, rest);
      assert s[|w|..] == rest;
      assert rest[1..] == Join(words[1..], " ");
      FieldsOfJoin(words[1..]);
    }
  }

  function LowerChar(c: char): char {
    if 'A' <= c <= 'Z' then (c as int + 32) as char else c
  }

  /** `s.lower()` over ASCII. */
  function Lower(s: string): (r: string)
    ensures |r| == |s| && forall i :: 0 <= i < |s| ==> r[i] == LowerChar(s[i])
  {
    seq(|s|, i requires 0 <= i < |s| => LowerChar(s[i]))
  }

  /** `s.split(key)[0]` for a non-empty `key`: what precedes the first occurrence of `key`. */
  function Before(s: string, key: string): (r: string)
    requires key != []
    ensures r <= s
    ensures forall i :: 0 <= i < |r| ==> !StartsWith(s[i..], key)
    ensures |r| < |s| ==> StartsWith(s[|r|..], key)
    decreases |s|
  {
    if StartsWith(s, key) || s == [] then ""
    else
      var r := [s[0]] + Before(s[1..], key);
      assert forall i :: 1 <= i <= |s| ==> s[i..] == s[1..][i - 1..];
      r
  }

  /** A string without the key's first character does not contain the key. */
  lemma {:induction false} BeforeAbsentKey(s: string, key: string)
    requires key != [] && key[0] !in s
    ensures Before(s, key) == s
    decreases |s|
  {
    if s != [] {
      assert key[0] !in s[1..] by {
        assert forall i :: 0 <= i < |s[1..]| ==> s[1..][i] == s[i + 1];
      }
      BeforeAbsentKey(s[1..], key);
    }
  }

  /** `s.replace(pattern, replacement)`: the non-overlapping occurrences of
      `pattern`, found from the left, become `replacement`; an empty `pattern`
      puts `replacement` before every character and at the end, as Python does. */
  function Replace(s: string, pattern: string, replacement: string): string
    decreases |s|
  {
    if pattern == [] then
      replacement + (if s == [] then [] else [s[0]] + Replace(s[1..], pattern, replacement))
    else if StartsWith(s, pattern) then
      replacement + Replace(s[|pattern|..], pattern, replacement)
    else if s == [] then []
    else [s[0]] + Replace(s[1..], pattern, replacement)
  }

  /** Replacing a non-empty pattern in a string that consists of exactly that pattern. */
  lemma ReplaceWhole(pattern: string, replacement: string)
    requires pattern != []
    ensures Replace(pattern, pattern, replacement) == replacement
  {
    assert pattern[|pattern|..] == [];
  }

  /** When the replacement is the only place a `%` can come from, replacing it
      back recovers the original string: substituting and then expanding a
      `%{...}` macro is the identity. */
  lemma {:induction false} ReplaceRoundTrip(s: string, pattern: string, macro: string)
    requires pattern != [] && macro != [] && macro[0] == '%'
    requires '%' !in s
    ensures Replace(Replace(s, pattern, macro), macro, pattern) == s
    decreases |s|
  {
    var r := Replace(s, pattern, macro);
    if StartsWith(s, pattern) {
      var tail := s[|pattern|..];
      assert '%' !in tail by {
        assert forall i :: 0 <= i < |tail| ==> tail[i] == s[|pattern| + i];
      }
      ReplaceRoundTrip(tail, pattern, macro);
      assert r == macro + Replace(tail, pattern, macro);
      assert r[|macro|..] == Replace(tail, pattern, macro);
      assert s == pattern + tail;
    } else if s != [] {
      assert '%' !in s[1..] by {
        assert forall i :: 0 <= i < |s[1..]| ==> s[1..][i] == s[i + 1];
      }
      ReplaceRoundTrip(s[1..], pattern, macro);
      assert r == [s[0]] + Replace(s[1..], pattern, macro);
      assert r[0] != macro[0];
      assert r[1..] == Replace(s[1..], pattern, macro);
      assert s == [s[0]] + s[1..];
    }
  }

  /** A prefix of the replaced string that holds no first character of the
      replacement was copied unchanged from the original. */
  lemma {:induction false} CopiedPrefix(s: string, pattern: string, replacement: string, q: string)
    requires pattern != [] && replacement != [] && replacement[0] !in q
    ensures StartsWith(Replace(s, pattern, replacement), q) ==> StartsWith(s, q)
    decreases |s|
  {
    var r := Replace(s, pattern, replacement);
    if q != [] && StartsWith(r, q) && !StartsWith(s, pattern) && s != [] {
      assert r == [s[0]] + Replace(s[1..], pattern, replacement);
      assert replacement[0] !in q[1..] by {
        assert forall i :: 0 <= i < |q[1..]| ==> q[1..][i] == q[i + 1];
      }
      assert q[1..] <= Replace(s[1..], pattern, replacement);
      CopiedPrefix(s[1..], pattern, replacement, q[1..]);
      assert s == [s[0]] + s[1..] && q == [q[0]] + q[1..];
    }
  }

  /** An occurrence of `p` in `x + y` lies in `y` when `x` holds no `p[0]`. */
  lemma {:induction false} ContainsSkip(x: string, y: string, p: string)
    requires p != [] && p[0] !in x
    ensures Contains(x + y, p) ==> Contains(y, p)
    decreases |x|
  {
    if x != [] {
      assert (x + y)[0] == x[0];
      assert (x + y)[1..] == x[1..] + y;
      assert p[0] !in x[1..] by {
        assert forall i :: 0 <= i < |x[1..]| ==> x[1..][i] == x[i + 1];
      }
      ContainsSkip(x[1..], y, p);
    } else {
      assert x + y == y;
    }
  }

  /** `s.replace(p, m)` leaves no `p` behind when `p` and `m` share neither's
      first character: every occurrence is replaced and none is created. */
  lemma {:induction false} NoPatternLeft(s: string, p: string, m: string)
    requires p != [] && m != [] && m[0] !in p && p[0] !in m
    ensures !Contains(Replace(s, p, m), p)
    decreases |s|
  {
    if StartsWith(s, p) {
      NoPatternLeft(s[|p|..], p, m);
      ContainsSkip(m, Replace(s[|p|..], p, m), p);
    } else if s != [] {
      var rest := Replace(s[1..], p, m);
      NoPatternLeft(s[1..], p, m);
      assert Replace(s, p, m) == [s[0]] + rest;
      assert ([s[0]] + rest)[1..] == rest;
      assert m[0] !in p[1..] by {
        assert forall i :: 0 <= i < |p[1..]| ==> p[1..][i] == p[i + 1];
      }
      CopiedPrefix(s[1..], p, m, p[1..]);
      assert p == [p[0]] + p[1..] && s == [s[0]] + s[1..];
    }
  }

  function DigitChar(d: nat): (c: char)
    requires d < 10
    ensures IsDigit(c)
  {
    ('0' as int + d) as char
  }

  /** `str(n)` for a natural number. */
  function NatToString(n: nat): (s: string)
    ensures s != [] && AllDigits(s)
    decreases n
  {
    if n < 10 then [DigitChar(n)] else NatToString(n / 10) + [DigitChar(n % 10)]
  }
}
