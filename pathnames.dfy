/** The three pieces of Python string handling the upload pipeline relies on:
    `os.path.splitext` (POSIX flavour), `str.lower` and `str.replace`. */
module PathNames {

  /** Index of the last occurrence of `c` in `s`, or -1 when there is none (`str.rfind`). */
  function RFind(s: string, c: char): int
    decreases |s|
  {
    if |s| == 0 then -1
    else if s[|s| - 1] == c then |s| - 1
    else RFind(s[..|s| - 1], c)
  }

  /** `RFind` answers -1 or an index of `s` holding `c`, and no `c` comes after it. */
  lemma {:induction false} RFindSpec(s: string, c: char)
    ensures -1 <= RFind(s, c) < |s|
    ensures RFind(s, c) >= 0 ==> s[RFind(s, c)] == c
    ensures forall k :: RFind(s, c) < k < |s| ==> s[k] != c
    decreases |s|
  {
    if |s| > 0 && s[|s| - 1] != c {
      RFindSpec(s[..|s| - 1], c);
    }
  }

  /** Some character of `s[lo..hi]` is not a dot. */
  predicate HasNonDot(s: string, lo: int, hi: int)
    requires 0 <= lo <= hi <= |s|
  {
    exists k :: lo <= k < hi && s[k] != '.'
  }

  datatype Split = Split(root: string, ext: string)

  /** `os.path.splitext` for POSIX paths: the extension runs from the last dot to the end,
      provided that dot lies in the last path component and is preceded there by something
      other than dots; otherwise the extension is empty.  The root and the extension always
      put back together give the path. */
  function SplitExt(p: string): (r: Split)
    ensures r.root + r.ext == p
  {
    var sep := RFind(p, '/');
    var dot := RFind(p, '.');
    RFindSpec(p, '/');
    RFindSpec(p, '.');
    if dot > sep && HasNonDot(p, sep + 1, dot) then Split(p[..dot], p[dot..])
    else Split(p, [])
  }

  /** The extension is empty, or a dot followed by neither dots nor slashes. */
  lemma SplitExtShape(p: string)
    ensures var e := SplitExt(p).ext;
            e == [] || (e[0] == '.' && '.' !in e[1..] && '/' !in e)
  {
    var sep := RFind(p, '/');
    var dot := RFind(p, '.');
    RFindSpec(p, '.');
    RFindSpec(p, '/');
    if dot > sep && HasNonDot(p, sep + 1, dot) {
      assert p[dot..][1..] == p[dot + 1..];
    }
  }

  /** The last path component of `stem` holds a character other than a dot. */
  predicate BaseHasNonDot(stem: string)
  {
    RFindSpec(stem, '/');
    HasNonDot(stem, RFind(stem, '/') + 1, |stem|)
  }

  lemma {:induction false} RFindAppend(s: string, e: string, c: char)
    requires c !in e
    ensures RFind(s + e, c) == RFind(s, c)
    decreases |e|
  {
    if |e| > 0 {
      assert (s + e)[..|s + e| - 1] == s + e[..|e| - 1];
      RFindAppend(s, e[..|e| - 1], c);
    } else {
      assert s + e == s;
    }
  }

  /** A name `stem.e` whose extension text `e` holds no dot or slash, and whose stem has a
      non-dot character in its last component, splits into `stem` and `.e`. */
  lemma SplitExtOf(stem: string, e: string)
    requires '.' !in e && '/' !in e
    requires BaseHasNonDot(stem)
    ensures SplitExt(stem + "." + e) == Split(stem, "." + e)
  {
    var p := stem + "." + e;
    assert p == (stem + ".") + e;
    RFindAppend(stem + ".", e, '.');
    RFindAppend(stem + ".", e, '/');
    assert RFind(stem + ".", '.') == |stem|;
    assert (stem + ".")[..|stem|] == stem;
    RFindAppend(stem, ".", '/');
    RFindSpec(stem, '/');
    var sep := RFind(stem, '/');
    var k :| sep + 1 <= k < |stem| && stem[k] != '.';
    assert p[k] == stem[k];
    assert HasNonDot(p, sep + 1, |stem|);
    assert p[..|stem|] == stem;
    assert p[|stem|..] == "." + e;
  }

  /** A path without any dot has the empty extension. */
  lemma NoDotEmptyExt(p: string)
    requires '.' !in p
    ensures SplitExt(p) == Split(p, [])
  {
    RFindSpec(p, '.');
    RFindSpec(p, '/');
  }

  /** A last component whose only dot is its first character (`.csv`, `dir/.profile`) has
      the empty extension: a leading dot starts a hidden name, not an extension. */
  lemma LeadingDotEmptyExt(dir: string, e: string)
    requires dir == [] || dir[|dir| - 1] == '/'
    requires '.' !in e && '/' !in e
    ensures SplitExt(dir + "." + e) == Split(dir + "." + e, [])
  {
    var p := dir + "." + e;
    assert p == (dir + ".") + e;
    RFindAppend(dir + ".", e, '.');
    RFindAppend(dir + ".", e, '/');
    assert RFind(dir + ".", '.') == |dir|;
    assert (dir + ".")[..|dir|] == dir;
    RFindAppend(dir, ".", '/');
    if dir != [] {
      assert RFind(dir, '/') == |dir| - 1;
    }
    assert RFind(p, '/') == |dir| - 1 && RFind(p, '.') == |dir|;
  }

  function LowerChar(c: char): char
  {
    if 'A' <= c <= 'Z' then (c as int - 'A' as int + 'a' as int) as char else c
  }

  /** `str.lower`, restricted to ASCII letters. */
  function Lower(s: string): (r: string)
    ensures |r| == |s|
  {
    seq(|s|, i requires 0 <= i < |s| => LowerChar(s[i]))
  }

  /** `pat` occurs in `s` starting at index `i`. */
  predicate OccursAt(s: string, pat: string, i: int)
  {
    0 <= i && i + |pat| <= |s| && s[i..i + |pat|] == pat
  }

  /** `pat` occurs nowhere in `s` when one of its characters is missing from `s`. */
  lemma AbsentChar(s: string, pat: string, j: nat)
    requires j < |pat| && pat[j] !in s
    ensures forall i :: !OccursAt(s, pat, i)
  {
    forall i | OccursAt(s, pat, i) ensures false {
    }
  }

  /** What `s.replace("", rep)` gives: `rep` before every character and at the end. */
  function Interleave(s: string, rep: string): (r: string)
    ensures |r| == |s| + (|s| + 1) * |rep|
    decreases |s|
  {
    if s == [] then rep else rep + [s[0]] + Interleave(s[1..], rep)
  }

  /** `s.replace(pat, rep)`: every occurrence of `pat`, found left to right without overlap,
      is replaced by `rep`. */
  function Replace(s: string, pat: string, rep: string): (r: string)
    decreases |s|
  {
    if pat == [] then Interleave(s, rep)
    else if |s| < |pat| then s
    else if s[..|pat|] == pat then rep + Replace(s[|pat|..], pat, rep)
    else [s[0]] + Replace(s[1..], pat, rep)
  }

  /** Where `pat` does not begin at the first character, that character is kept. */
  lemma ReplaceStep(s: string, pat: string, rep: string)
    requires pat != [] && |s| > 0 && !OccursAt(s, pat, 0)
    ensures Replace(s, pat, rep) == [s[0]] + Replace(s[1..], pat, rep)
  {
    if |s| < |pat| {
      assert Replace(s[1..], pat, rep) == s[1..];
      assert [s[0]] + s[1..] == s;
    }
  }

  /** An occurrence in the tail of `s` is an occurrence in `s`, one position later. */
  lemma OccursInTail(s: string, pat: string, i: nat)
    requires |s| > 0 && OccursAt(s[1..], pat, i)
    ensures OccursAt(s, pat, i + 1)
  {
    assert s[1..][i..i + |pat|] == s[i + 1..i + 1 + |pat|];
  }

  lemma AppendAssoc(a: string, b: string, c: string)
    ensures a + (b + c) == (a + b) + c
  {
  }

  /** No occurrence begins in the first `k - 1` positions of the tail when none begins in
      the first `k` positions of `s`. */
  lemma NoneInTail(s: string, pat: string, k: nat)
    requires 0 < k <= |s|
    requires forall i :: 0 <= i < k ==> !OccursAt(s, pat, i)
    ensures forall i :: 0 <= i < k - 1 ==> !OccursAt(s[1..], pat, i)
  {
    forall i | 0 <= i < k - 1 ensures !OccursAt(s[1..], pat, i) {
      if OccursAt(s[1..], pat, i) {
        OccursInTail(s, pat, i);
      }
    }
  }

  /** Replacing starts at the first occurrence: a prefix of `s` in which `pat` does not begin
      is left as it is. */
  lemma {:induction false} ReplaceSkip(s: string, pat: string, rep: string, k: nat)
    requires pat != [] && k <= |s|
    requires forall i :: 0 <= i < k ==> !OccursAt(s, pat, i)
    ensures Replace(s, pat, rep) == s[..k] + Replace(s[k..], pat, rep)
  {
    if k > 0 {
      ReplaceStep(s, pat, rep);
      var t := s[1..];
      NoneInTail(s, pat, k);
      ReplaceSkip(t, pat, rep, k - 1);
      assert t[k - 1..] == s[k..];
      var head, mid, rest := [s[0]], t[..k - 1], Replace(s[k..], pat, rep);
      assert Replace(s, pat, rep) == head + (mid + rest);
      AppendAssoc(head, mid, rest);
      assert head + mid == s[..k];
    } else {
      assert s[..0] == [] && s[0..] == s;
    }
  }

  /** An occurrence at the start is replaced, and the search goes on right after it. */
  lemma ReplaceLeading(pat: string, rest: string, rep: string)
    requires pat != []
    ensures Replace(pat + rest, pat, rep) == rep + Replace(rest, pat, rep)
  {
    assert (pat + rest)[..|pat|] == pat;
    assert (pat + rest)[|pat|..] == rest;
  }

  /** A string that is exactly `pat` becomes `rep`. */
  lemma ReplaceWhole(pat: string, rep: string)
    requires pat != []
    ensures Replace(pat, pat, rep) == rep
  {
    ReplaceLeading(pat, [], rep);
    assert pat + [] == pat;
    assert Replace([], pat, rep) == [];
    assert rep + [] == rep;
  }

  /** A string in which `pat` does not occur is returned unchanged. */
  lemma ReplaceAbsent(s: string, pat: string, rep: string)
    requires pat != []
    requires forall i :: 0 <= i <= |s| ==> !OccursAt(s, pat, i)
    ensures Replace(s, pat, rep) == s
  {
    ReplaceSkip(s, pat, rep, |s|);
    assert s[|s|..] == [];
    assert s[..|s|] == s;
  }
}
