/**
 * The Python `str` and `pathlib` operations the manifest tools and the transmitter
 * rely on, over ASCII: `isspace`, `strip`, `lower`, `find`, `split(sep, 1)`,
 * `splitlines`, the `<` order of strings and `PurePath.suffix`.
 */
module Text {
  import opened Wrappers

  /** `str.isspace` on an ASCII character: tab through carriage return, the separators 0x1C-0x1F, and space. */
  predicate IsSpace(c: char)
  {
    ('\t' <= c <= '\r') || ('\U{1C}' <= c <= ' ')
  }

  /** Every character of s is whitespace. */
  predicate AllSpace(s: string)
  {
    forall i :: 0 <= i < |s| ==> IsSpace(s[i])
  }

  /** Neither end of s is whitespace (vacuously so for the empty string). */
  predicate Trimmed(s: string)
  {
    |s| == 0 || (!IsSpace(s[0]) && !IsSpace(s[|s| - 1]))
  }

  /** `str.rstrip()`: the longest prefix of s that does not end in whitespace. */
  function RStrip(s: string): (r: string)
    ensures r <= s
    ensures |r| == 0 || !IsSpace(r[|r| - 1])
    ensures AllSpace(s[|r|..])
  {
    if |s| == 0 || !IsSpace(s[|s| - 1]) then s
    else
      var r := RStrip(s[..|s| - 1]);
      assert s[|r|..] == s[..|s| - 1][|r|..] + [s[|s| - 1]];
      r
  }

  /** `str.lstrip()`: the longest suffix of s that does not start with whitespace. */
  function LStrip(s: string): (r: string)
    ensures |r| <= |s| && r == s[|s| - |r|..]
    ensures |r| == 0 || !IsSpace(r[0])
    ensures AllSpace(s[..|s| - |r|])
  {
    if |s| == 0 || !IsSpace(s[0]) then s
    else
      var r := LStrip(s[1..]);
      assert s[..|s| - |r|] == [s[0]] + s[1..][..|s| - 1 - |r|];
      r
  }

  /** r sits at offset lo of s with only whitespace before and after it. */
  predicate PaddedAt(s: string, lo: int, r: string)
  {
    && 0 <= lo <= |s| - |r|
    && s[lo..lo + |r|] == r
    && AllSpace(s[..lo])
    && AllSpace(s[lo + |r|..])
  }

  /** `str.strip()`: s with the whitespace at both ends removed. */
  function Strip(s: string): (r: string)
    ensures Trimmed(r)
    ensures |r| <= |s|
  {
    LStrip(RStrip(s))
  }

  /** A whitespace-free tail cut from s and a whitespace-free head cut from what is left leave the rest padded in s. */
  lemma StripWitness(s: string, t: string, r: string)
    requires t <= s && AllSpace(s[|t|..])
    requires |r| <= |t| && r == t[|t| - |r|..] && AllSpace(t[..|t| - |r|])
    ensures PaddedAt(s, |t| - |r|, r)
  {
    var lo := |t| - |r|;
    assert s[lo..lo + |r|] == t[lo..];
    assert s[..lo] == t[..lo];
  }

  /** Stripping removes exactly the whitespace padding around a trimmed string. */
  lemma {:induction false} StripPadded(a: string, t: string, b: string)
    requires AllSpace(a) && AllSpace(b) && Trimmed(t)
    ensures Strip(a + t + b) == t
    decreases |a| + |b|
  {
    if |t| == 0 {
      assert a + t + b == [] + (a + b);
      assert AllSpace(a + b) by {
        assert forall i :: 0 <= i < |a + b| ==> (a + b)[i] == (if i < |a| then a[i] else b[i - |a|]);
      }
      RStripPadded([], a + b);
    } else {
      RStripPadded(a + t, b);
      LStripPadded(a, t);
    }
  }

  /** rstrip drops exactly a whitespace tail after a string that does not end in whitespace. */
  lemma {:induction false} RStripPadded(u: string, b: string)
    requires AllSpace(b) && (|u| == 0 || !IsSpace(u[|u| - 1]))
    ensures RStrip(u + b) == u
    decreases |b|
  {
    if |b| == 0 {
      assert u + b == u;
    } else {
      assert (u + b)[..|u + b| - 1] == u + b[..|b| - 1];
      RStripPadded(u, b[..|b| - 1]);
    }
  }

  /** lstrip drops exactly a whitespace head before a string that does not start with whitespace. */
  lemma {:induction false} LStripPadded(a: string, t: string)
    requires AllSpace(a) && (|t| == 0 || !IsSpace(t[0]))
    ensures LStrip(a + t) == t
    decreases |a|
  {
    if |a| == 0 {
      assert a + t == t;
    } else {
      assert (a + t)[1..] == a[1..] + t;
      LStripPadded(a[1..], t);
    }
  }

  /** A trimmed string is left alone by stripping. */
  lemma StripTrimmed(t: string)
    requires Trimmed(t)
    ensures Strip(t) == t
  {
    assert [] + t + [] == t;
    StripPadded([], t, []);
  }

  /** Stripping a trimmed string followed by whitespace leaves the string. */
  lemma StripTrailing(t: string, b: string)
    requires Trimmed(t) && AllSpace(b)
    ensures Strip(t + b) == t
  {
    assert [] + t + b == t + b;
    StripPadded([], t, b);
  }

  /** Stripping twice is stripping once. */
  lemma StripIdempotent(s: string)
    ensures Strip(Strip(s)) == Strip(s)
  {
    StripTrimmed(Strip(s));
  }

  /** `str.lower()` on one character; only the ASCII capitals change. */
  function LowerChar(c: char): char
  {
    if 'A' <= c <= 'Z' then (c as int + 32) as char else c
  }

  /** `str.lower()`, character by character. */
  function Lower(s: string): (r: string)
    ensures |r| == |s|
    ensures forall i :: 0 <= i < |s| ==> r[i] == LowerChar(s[i])
  {
    if |s| == 0 then [] else [LowerChar(s[0])] + Lower(s[1..])
  }

  /** Lower-casing changes no character that has no capital, and lower-cased text is left alone by a second pass. */
  lemma LowerFixes(s: string)
    ensures (forall i :: 0 <= i < |s| ==> !('A' <= s[i] <= 'Z')) <==> Lower(s) == s
    ensures Lower(Lower(s)) == Lower(s)
  {
    if Lower(s) == s {
      forall i | 0 <= i < |s|
        ensures !('A' <= s[i] <= 'Z')
      {
        assert Lower(s)[i] == s[i];
      }
    }
  }

  /** Python's `a <= b` on strings: lexicographic by code point, a proper prefix first. */
  predicate LexLe(a: string, b: string)
  {
    |a| == 0 || (|b| > 0 && (a[0] < b[0] || (a[0] == b[0] && LexLe(a[1..], b[1..]))))
  }

  /** Every string is at most itself. */
  lemma {:induction false} LexLeReflexive(a: string)
    ensures LexLe(a, a)
    decreases |a|
  {
    if |a| > 0 {
      LexLeReflexive(a[1..]);
    }
  }

  /** Any two strings are comparable. */
  lemma {:induction false} LexLeTotal(a: string, b: string)
    ensures LexLe(a, b) || LexLe(b, a)
    decreases |a|
  {
    if |a| > 0 && |b| > 0 && a[0] == b[0] {
      LexLeTotal(a[1..], b[1..]);
    }
  }

  /** The order is transitive. */
  lemma {:induction false} LexLeTransitive(a: string, b: string, c: string)
    requires LexLe(a, b) && LexLe(b, c)
    ensures LexLe(a, c)
    decreases |a|
  {
    if |a| > 0 && a[0] == b[0] && b[0] == c[0] {
      LexLeTransitive(a[1..], b[1..], c[1..]);
    }
  }

  /** Strings each at most the other are equal. */
  lemma {:induction false} LexLeAntisymmetric(a: string, b: string)
    requires LexLe(a, b) && LexLe(b, a)
    ensures a == b
    decreases |a|
  {
    if |a| > 0 {
      LexLeAntisymmetric(a[1..], b[1..]);
      assert a == [a[0]] + a[1..] && b == [b[0]] + b[1..];
    }
  }

  /** pat occurs in s at index i. */
  predicate OccursAt(s: string, pat: string, i: nat)
  {
    i + |pat| <= |s| && s[i..i + |pat|] == pat
  }

  /** An occurrence in a piece of t is an occurrence in t, shifted by where the piece sits. */
  lemma OccursWithin(t: string, lo: nat, s: string, pat: string, j: nat)
    requires lo + |s| <= |t| && t[lo..lo + |s|] == s && OccursAt(s, pat, j)
    ensures OccursAt(t, pat, lo + j)
  {
    forall k | 0 <= k < |pat|
      ensures t[lo + j + k] == pat[k]
    {
      assert t[lo + j + k] == t[lo..lo + |s|][j + k] == s[j + k];
      assert s[j + k] == s[j..j + |pat|][k];
    }
  }

  /** A pattern that occurs nowhere in s occurs nowhere in s stripped. */
  lemma StripKeepsAbsent(s: string, pat: string)
    requires forall i: nat :: !OccursAt(s, pat, i)
    ensures Find(Strip(s), pat).None?
  {
    var lo := StripOffset(s);
    AbsentWithin(s, lo, Strip(s), pat);
  }

  /** A pattern that occurs nowhere in t occurs nowhere in a piece of t. */
  lemma AbsentWithin(t: string, lo: nat, s: string, pat: string)
    requires lo + |s| <= |t| && t[lo..lo + |s|] == s
    requires forall i: nat :: !OccursAt(t, pat, i)
    ensures Find(s, pat).None?
  {
    match Find(s, pat)
    case None =>
    case Some(j) =>
      OccursWithin(t, lo, s, pat, j);
  }

  /** Stripping removes only whitespace, at the two ends: the result sits in s at the offset returned. */
  lemma StripOffset(s: string) returns (lo: nat)
    ensures PaddedAt(s, lo, Strip(s))
  {
    var t := RStrip(s);
    var r := LStrip(t);
    StripWitness(s, t, r);
    lo := |t| - |r|;
  }

  /** `s.find(pat, start)`: the first index at or after start where pat occurs. */
  function FindFrom(s: string, pat: string, start: nat): (r: Option<nat>)
    ensures r.Some? ==> start <= r.value && OccursAt(s, pat, r.value)
    ensures forall j :: start <= j && (r.None? || j < r.value) ==> !OccursAt(s, pat, j)
    decreases |s| - start
  {
    if start + |pat| > |s| then None
    else if s[start..start + |pat|] == pat then Some(start)
    else FindFrom(s, pat, start + 1)
  }

  /** `s.find(pat)`; None stands for Python's -1. */
  function Find(s: string, pat: string): Option<nat>
  {
    FindFrom(s, pat, 0)
  }

  /** The first occurrence is the one find reports. */
  lemma FindFirst(s: string, pat: string, i: nat)
    requires OccursAt(s, pat, i)
    requires forall j :: 0 <= j < i ==> !OccursAt(s, pat, j)
    ensures Find(s, pat) == Some(i)
  {
  }

  /**
   * `s.split(sep, 1)` for a non-empty separator: the whole string when sep does
   * not occur, otherwise the text before its first occurrence and the text after it.
   */
  function SplitOnce(s: string, sep: string): (r: seq<string>)
    requires |sep| > 0
    ensures |r| == 1 || |r| == 2
    ensures |r| == 1 <==> Find(s, sep).None?
    ensures |r| == 1 ==> r[0] == s
    ensures |r| == 2 ==> r[0] + sep + r[1] == s && Find(r[0] + sep, sep) == Some(|r[0]|)
  {
    match Find(s, sep)
    case None => [s]
    case Some(i) =>
      var a, b := s[..i], s[i + |sep|..];
      assert a + sep + b == s;
      forall j | 0 <= j < i
        ensures !OccursAt(a + sep, sep, j)
      {
        assert (a + sep)[j..j + |sep|] == s[j..j + |sep|];
        assert !OccursAt(s, sep, j);
      }
      FindFirst(a + sep, sep, i);
      [a, b]
  }

  /**
   * A line boundary of `str.splitlines()` among ASCII characters: line feed, carriage
   * return, vertical tab, form feed and the separators 0x1C-0x1E.
   */
  predicate IsLineBreak(c: char)
  {
    c == '\n' || c == '\r' || c == '\U{0B}' || c == '\U{0C}' || ('\U{1C}' <= c <= '\U{1E}')
  }

  /** s contains no line boundary. */
  predicate NoBreak(s: string)
  {
    forall i :: 0 <= i < |s| ==> !IsLineBreak(s[i])
  }

  /** The index of the first line boundary at or after start, or |s| when there is none. */
  function LineEnd(s: string, start: nat): (r: nat)
    requires start <= |s|
    ensures start <= r <= |s|
    ensures r < |s| ==> IsLineBreak(s[r])
    ensures NoBreak(s[start..r])
    decreases |s| - start
  {
    if start == |s| || IsLineBreak(s[start]) then start
    else
      var r := LineEnd(s, start + 1);
      assert s[start..r] == [s[start]] + s[start + 1..r];
      r
  }

  /** The number of characters a boundary at index i takes up: two for "\r\n", one otherwise. */
  function BreakWidth(s: string, i: nat): nat
    requires i < |s|
  {
    if s[i] == '\r' && i + 1 < |s| && s[i + 1] == '\n' then 2 else 1
  }

  /** `str.splitlines()`: the lines of s without their boundaries; a final boundary opens no empty line. */
  function SplitLines(s: string): (r: seq<string>)
    ensures forall k :: 0 <= k < |r| ==> NoBreak(r[k])
    ensures |s| == 0 <==> |r| == 0
    decreases |s|
  {
    if |s| == 0 then []
    else
      var i := LineEnd(s, 0);
      assert s[0..i] == s[..i];
      if i == |s| then [s]
      else [s[..i]] + SplitLines(s[i + BreakWidth(s, i)..])
  }

  /** Each line followed by a line feed, as `make_manifest` writes them. */
  function JoinLines(lines: seq<string>): string
  {
    if |lines| == 0 then [] else lines[0] + "\n" + JoinLines(lines[1..])
  }

  /** splitlines recovers the lines that were joined, each ended by a line feed. */
  lemma {:induction false} SplitJoinLines(lines: seq<string>)
    requires forall k :: 0 <= k < |lines| ==> NoBreak(lines[k])
    ensures SplitLines(JoinLines(lines)) == lines
    decreases |lines|
  {
    if |lines| > 0 {
      var l := lines[0];
      var rest := JoinLines(lines[1..]);
      var s := l + "\n" + rest;
      assert s == JoinLines(lines);
      assert s[|l|] == '\n';
      LineEndAt(s, 0, |l|);
      assert s[..|l|] == l;
      assert BreakWidth(s, |l|) == 1;
      assert s[|l| + 1..] == rest;
      SplitJoinLines(lines[1..]);
      assert lines == [l] + lines[1..];
    }
  }

  /** The first boundary after start is found where it is. */
  lemma {:induction false} LineEndAt(s: string, start: nat, i: nat)
    requires start <= i < |s| && IsLineBreak(s[i])
    requires forall j :: start <= j < i ==> !IsLineBreak(s[j])
    ensures LineEnd(s, start) == i
    decreases i - start
  {
    if start < i {
      LineEndAt(s, start + 1, i);
    }
  }

  /** The index of the last occurrence of c in s. */
  function RFind(s: string, c: char): (r: Option<nat>)
    ensures r.Some? ==> r.value < |s| && s[r.value] == c
    ensures forall j :: 0 <= j < |s| && (r.None? || r.value < j) ==> s[j] != c
  {
    if |s| == 0 then None
    else if s[|s| - 1] == c then Some(|s| - 1)
    else RFind(s[..|s| - 1], c)
  }

  /**
   * `PurePath.suffix` of a file name: from its last dot to the end, provided the
   * dot is neither the first nor the last character; otherwise empty.
   */
  function Suffix(name: string): (r: string)
    ensures r == [] || (2 <= |r| < |name| && r == name[|name| - |r|..] && r[0] == '.')
    ensures forall j :: 1 <= j < |r| ==> r[j] != '.'
    ensures forall i :: 0 < i < |name| - 1 && name[i] == '.' && '.' !in name[i + 1..] ==> r == name[i..]
  {
    match RFind(name, '.')
    case Some(i) =>
      if 0 < i < |name| - 1 then name[i..] else []
    case None => []
  }

  /**
   * The `.png` test of the transmitter and the manifest builder: the lower-cased
   * suffix is ".png" exactly when the name is longer than four characters and its
   * last four lower-case to ".png" (so a file called ".png" is not an image).
   */
  lemma PngSuffix(name: string)
    ensures Lower(Suffix(name)) == ".png" <==> |name| > 4 && Lower(name[|name| - 4..]) == ".png"
  {
    if |name| > 4 && Lower(name[|name| - 4..]) == ".png" {
      PngTail(name);
    }
  }

  /** A name longer than four characters whose last four lower-case to ".png" has the suffix made of them. */
  lemma PngTail(name: string)
    requires |name| > 4 && Lower(name[|name| - 4..]) == ".png"
    ensures Suffix(name) == name[|name| - 4..]
  {
    var i := |name| - 4;
    var ext := name[i..];
    assert LowerChar(ext[0]) == '.' && LowerChar(ext[1]) == 'p';
    assert LowerChar(ext[2]) == 'n' && LowerChar(ext[3]) == 'g';
    assert name[i] == '.' && name[i + 1] != '.' && name[i + 2] != '.' && name[i + 3] != '.';
    LastOccurrence(name, '.', i);
  }

  /** RFind finds c at i when no later character is c. */
  lemma LastOccurrence(s: string, c: char, i: nat)
    requires i < |s| && s[i] == c
    requires forall j :: i < j < |s| ==> s[j] != c
    ensures RFind(s, c) == Some(i)
  {
  }
}
