/** The string and path primitives the generator relies on: Python's `str.endswith`,
    `str.rfind`, and the POSIX flavours of `os.path.splitext` and `os.path.join`. */
module Paths {

  /** `s` ends with `suffix` (`str.endswith`). */
  predicate EndsWith(s: string, suffix: string)
  {
    |suffix| <= |s| && s[|s| - |suffix|..] == suffix
  }

  /** `s` ends with one of `suffixes` (`str.endswith` given a tuple). */
  predicate EndsWithAny(s: string, suffixes: seq<string>)
  {
    exists i :: 0 <= i < |suffixes| && EndsWith(s, suffixes[i])
  }

  /** Index of the last `c` in `s`, or -1 when there is none (`str.rfind`). */
  function RFind(s: string, c: char): (r: int)
    ensures -1 <= r < |s|
    ensures r >= 0 ==> s[r] == c
    ensures forall k :: r < k < |s| ==> s[k] != c
  {
    if |s| == 0 then -1
    else if s[|s| - 1] == c then |s| - 1
    else RFind(s[..|s| - 1], c)
  }

  /** Whether `p[lo..hi]` holds a character other than a dot: the loop of
      `genericpath._splitext` that skips the leading dots of a file name. */
  function SkipsLeadingDots(p: string, lo: int, hi: int): (found: bool)
    requires 0 <= lo && hi <= |p|
    ensures found <==> exists k :: lo <= k < hi && p[k] != '.'
    decreases hi - lo
  {
    if lo >= hi then false
    else if p[lo] != '.' then true
    else SkipsLeadingDots(p, lo + 1, hi)
  }

  /** `os.path.splitext` on POSIX: the extension is the text from the last dot on,
      provided that dot lies in the last path component and is preceded, in that
      component, by something other than dots; otherwise the extension is empty.
      The two parts always concatenate back to the input, and a non-empty extension
      is a single dot followed by neither dots nor separators. */
  function Splitext(p: string): (r: (string, string))
    ensures r.0 + r.1 == p
    ensures r.1 == "" || (r.1[0] == '.' && '.' !in r.1[1..] && '/' !in r.1)
    ensures r.1 != "" ==> SkipsLeadingDots(p, RFind(p, '/') + 1, |r.0|)
  {
    var sep := RFind(p, '/');
    var dot := RFind(p, '.');
    if dot > sep && SkipsLeadingDots(p, sep + 1, dot) then
      assert p[dot..][1..] == p[dot + 1..];
      (p[..dot], p[dot..])
    else
      (p, "")
  }

  /** The root part of `os.path.splitext`. */
  function Stem(p: string): (stem: string)
    ensures |stem| <= |p| && stem == p[..|stem|]
  {
    Splitext(p).0
  }

  /** `os.path.join(a, b)` on POSIX for two components: an absolute `b` replaces
      `a`; otherwise a `/` is inserted unless `a` is empty or already ends in one. */
  function Join(a: string, b: string): (r: string)
    ensures forall c :: c in r ==> c in a || c in b || c == '/'
    ensures EndsWith(r, b)
  {
    if |b| > 0 && b[0] == '/' then b
    else if a == [] || a[|a| - 1] == '/' then a + b
    else a + "/" + b
  }

  /** A single-component name joins with a relative name as `a/b`. */
  lemma JoinComponent(a: string, b: string)
    requires a != [] && '/' !in a
    requires b == [] || b[0] != '/'
    ensures Join(a, b) == a + "/" + b
  {
  }

  /** Only the empty name has an empty stem: a non-empty name either keeps a
      prefix holding a non-dot character, or is its own stem. */
  lemma StemEmptyIff(p: string)
    ensures Stem(p) == [] <==> p == []
  {
    var sep := RFind(p, '/');
    var dot := RFind(p, '.');
    if dot > sep && SkipsLeadingDots(p, sep + 1, dot) {
      var k :| sep + 1 <= k < dot && p[k] != '.';
      assert |Stem(p)| == dot > k >= 0;
    }
  }

  /** The stem of a slash-free name `s + x`, where `x` is a dot followed by no
      further dots (an extension such as `.gd`): it is `s` when `s` holds a
      character other than a dot, and the whole name otherwise (a leading dot
      does not start an extension, so `.gd` is its own stem). */
  lemma {:induction false} StemOfExtension(s: string, x: string)
    requires '/' !in s && '/' !in x
    requires |x| > 0 && x[0] == '.' && '.' !in x[1..]
    ensures (exists k :: 0 <= k < |s| && s[k] != '.') ==> Stem(s + x) == s
    ensures (forall k :: 0 <= k < |s| ==> s[k] == '.') ==> Stem(s + x) == s + x
  {
    var p := s + x;
    var dot := RFind(p, '.');
    assert p[|s|] == '.';
    forall k | |s| < k < |p|
      ensures p[k] != '.'
    {
      assert p[k] == x[1..][k - |s| - 1];
    }
    assert dot == |s|;
    forall k | 0 <= k < |p|
      ensures p[k] != '/'
    {
      if k < |s| {
        assert p[k] == s[k];
      } else {
        assert p[k] == x[k - |s|];
      }
    }
    assert RFind(p, '/') == -1;
    assert p[..dot] == s;
    if exists k :: 0 <= k < |s| && s[k] != '.' {
      var k :| 0 <= k < |s| && s[k] != '.';
      assert p[k] == s[k];
      assert SkipsLeadingDots(p, 0, dot);
    } else {
      assert !SkipsLeadingDots(p, 0, dot);
    }
  }

  /** A name without any dot is its own stem. */
  lemma StemWithoutDot(p: string)
    requires '.' !in p
    ensures Stem(p) == p
  {
  }
}
