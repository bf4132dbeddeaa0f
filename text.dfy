/** The string operations the `/fare` handler relies on: Python's
    no-argument `str.strip()`, the substring test `sep in s`, and
    `s.split(sep, 1)`, which splits at the first occurrence of `sep`. */
module Text {
  import opened Wrappers

  /** The characters a no-argument `strip()` removes: those for which
      Python 3's `str.isspace()` holds (the ASCII controls 0x09-0x0D and
      0x1C-0x1F, the space, and the Unicode white-space characters). */
  predicate IsWhitespace(c: char) {
    || ('\t' <= c <= '\r')
    || ('\U{1C}' <= c <= '\U{1F}')
    || c == ' '
    || c == '\U{85}'
    || c == '\U{A0}'
    || c == '\U{1680}'
    || ('\U{2000}' <= c <= '\U{200A}')
    || c == '\U{2028}'
    || c == '\U{2029}'
    || c == '\U{202F}'
    || c == '\U{205F}'
    || c == '\U{3000}'
  }

  predicate AllWhitespace(s: string) {
    forall i | 0 <= i < |s| :: IsWhitespace(s[i])
  }

  /** A string with no leading and no trailing whitespace. */
  predicate IsStripped(s: string) {
    s == [] || (!IsWhitespace(s[0]) && !IsWhitespace(s[|s| - 1]))
  }

  /** `r` is `s` with a run of whitespace of length `lo` removed in front
      and a run of whitespace removed behind. */
  predicate IsTrimOf(r: string, s: string, lo: nat) {
    && lo + |r| <= |s|
    && r == s[lo..lo + |r|]
    && AllWhitespace(s[..lo])
    && AllWhitespace(s[lo + |r|..])
  }

  /** The length of the longest whitespace prefix of `s`. */
  function LeadingWhitespace(s: string): (k: nat)
    ensures k <= |s|
    ensures AllWhitespace(s[..k])
    ensures k < |s| ==> !IsWhitespace(s[k])
  {
    if s == [] || !IsWhitespace(s[0]) then 0
    else
      var k' := LeadingWhitespace(s[1..]);
      assert s[..1 + k'] == [s[0]] + s[1..][..k'];
      1 + k'
  }

  /** The length of the longest whitespace suffix of `s`. */
  function TrailingWhitespace(s: string): (k: nat)
    ensures k <= |s|
    ensures AllWhitespace(s[|s| - k..])
    ensures k < |s| ==> !IsWhitespace(s[|s| - 1 - k])
  {
    if s == [] || !IsWhitespace(s[|s| - 1]) then 0
    else
      var init := s[..|s| - 1];
      var k' := TrailingWhitespace(init);
      assert s[|s| - (1 + k')..] == init[|init| - k'..] + [s[|s| - 1]];
      1 + k'
  }

  /** Python's `s.strip()`: `s` without its leading and trailing whitespace. */
  function Strip(s: string): (r: string)
    ensures IsStripped(r)
    ensures exists lo: nat :: IsTrimOf(r, s, lo)
    ensures r == [] <==> AllWhitespace(s)
  {
    var lo := LeadingWhitespace(s);
    var rest := s[lo..];
    var r := rest[..|rest| - TrailingWhitespace(rest)];
    StripParts(s, lo, rest, TrailingWhitespace(rest));
    r
  }

  /** The facts `Strip` relies on, for a whitespace prefix of length `lo`
      and a whitespace suffix of length `t` of what remains. */
  lemma StripParts(s: string, lo: nat, rest: string, t: nat)
    requires lo <= |s| && rest == s[lo..] && t <= |rest|
    requires AllWhitespace(s[..lo]) && (lo < |s| ==> !IsWhitespace(s[lo]))
    requires AllWhitespace(rest[|rest| - t..]) && (t < |rest| ==> !IsWhitespace(rest[|rest| - 1 - t]))
    ensures IsTrimOf(rest[..|rest| - t], s, lo)
    ensures IsStripped(rest[..|rest| - t])
    ensures rest[..|rest| - t] == [] <==> AllWhitespace(s)
  {
    var r := rest[..|rest| - t];
    var hi := lo + |r|;
    assert r == s[lo..hi];
    assert s[hi..] == rest[|rest| - t..];
    if r == [] {
      AllWhitespaceJoin(s, lo);
    } else {
      assert r[0] == s[lo];
      assert r[|r| - 1] == rest[|rest| - 1 - t];
    }
  }

  /** A string is all whitespace when both sides of a cut are. */
  lemma AllWhitespaceJoin(s: string, k: nat)
    requires k <= |s| && AllWhitespace(s[..k]) && AllWhitespace(s[k..])
    ensures AllWhitespace(s)
  {
    forall i | 0 <= i < |s| ensures IsWhitespace(s[i]) {
      if i < k {
        assert s[..k][i] == s[i];
      } else {
        assert s[k..][i - k] == s[i];
      }
    }
  }

  /** Any stripped trim of `s` is `Strip(s)`: the result of stripping is
      determined by the two properties `Strip` promises. */
  lemma StripUnique(s: string, r: string, lo: nat)
    requires IsTrimOf(r, s, lo) && IsStripped(r)
    ensures Strip(s) == r
  {
    var r2 := Strip(s);
    var lo2: nat :| IsTrimOf(r2, s, lo2);
    TrimsAgree(s, r, lo, r2, lo2);
  }

  /** Two stripped trims of the same string are equal. */
  lemma TrimsAgree(s: string, a: string, la: nat, b: string, lb: nat)
    requires IsTrimOf(a, s, la) && IsStripped(a)
    requires IsTrimOf(b, s, lb) && IsStripped(b)
    ensures a == b
  {
    var ha, hb := la + |a|, lb + |b|;
    WhitespaceOutside(s, la, ha);
    WhitespaceOutside(s, lb, hb);
    if a != [] && b != [] {
      assert !IsWhitespace(s[la]) by { assert s[la] == a[0]; }
      assert !IsWhitespace(s[lb]) by { assert s[lb] == b[0]; }
      // Both trims start at the first non-whitespace character of s ...
      assert la == lb;
      assert !IsWhitespace(s[ha - 1]) by { assert s[ha - 1] == a[|a| - 1]; }
      assert !IsWhitespace(s[hb - 1]) by { assert s[hb - 1] == b[|b| - 1]; }
      // ... and end at its last non-whitespace character.
      assert ha == hb;
    }
  }

  /** The whitespace affixes of a trim, index by index. */
  lemma WhitespaceOutside(s: string, lo: nat, hi: nat)
    requires lo <= hi <= |s|
    requires AllWhitespace(s[..lo]) && AllWhitespace(s[hi..])
    ensures forall i | 0 <= i < lo :: IsWhitespace(s[i])
    ensures forall i | hi <= i < |s| :: IsWhitespace(s[i])
  {
    forall i | 0 <= i < lo ensures IsWhitespace(s[i]) {
      assert s[..lo][i] == s[i];
    }
    forall i | hi <= i < |s| ensures IsWhitespace(s[i]) {
      assert s[hi..][i - hi] == s[i];
    }
  }

  /** Stripping a string that is already stripped changes nothing. */
  lemma StripStripped(s: string)
    requires IsStripped(s)
    ensures Strip(s) == s
  {
    assert IsTrimOf(s, s, 0) by {
      assert s[|s|..] == [] && s[..0] == [];
    }
    StripUnique(s, s, 0);
  }

  /** Stripping twice is stripping once. */
  lemma StripIdempotent(s: string)
    ensures Strip(Strip(s)) == Strip(s)
  {
    StripStripped(Strip(s));
  }

  /** `d` occurs in `s` starting at index `i`. */
  predicate OccursAt(s: string, d: string, i: nat) {
    i + |d| <= |s| && s[i..i + |d|] == d
  }

  /** `i` is where the first occurrence of `d` in `s` starts. */
  predicate IsFirstOccurrence(s: string, d: string, i: nat) {
    OccursAt(s, d, i) && forall j: nat | j < i :: !OccursAt(s, d, j)
  }

  /** The first index at or after `from` where `d` occurs in `s`, if any. */
  function FindFrom(s: string, d: string, from: nat): (r: Option<nat>)
    decreases |s| - from
    ensures r.Some? ==> from <= r.value && OccursAt(s, d, r.value)
    ensures r.Some? ==> forall j: nat | from <= j < r.value :: !OccursAt(s, d, j)
    ensures r.None? ==> forall j: nat | from <= j :: !OccursAt(s, d, j)
  {
    if from + |d| > |s| then None
    else if OccursAt(s, d, from) then Some(from)
    else FindFrom(s, d, from + 1)
  }

  /** `d` cannot start at an index where `s` does not begin with the first
      two characters of `d`. */
  lemma NoOccurrenceBefore(s: string, d: string, i: nat)
    requires |d| >= 2 && i < |s|
    requires forall j | 0 <= j < i :: s[j] != d[0] || s[j + 1] != d[1]
    ensures forall j: nat | j < i :: !OccursAt(s, d, j)
  {
    forall j: nat | j < i ensures !OccursAt(s, d, j) {
      if j + |d| <= |s| {
        assert s[j..j + |d|][0] == s[j] && s[j..j + |d|][1] == s[j + 1];
      }
    }
  }

  /** Python's `s.find(d)`, with `None` for -1: where the first occurrence
      of `d` in `s` starts. */
  function Find(s: string, d: string): (r: Option<nat>)
    ensures r.Some? ==> IsFirstOccurrence(s, d, r.value)
    ensures r.None? ==> forall j: nat :: !OccursAt(s, d, j)
  {
    FindFrom(s, d, 0)
  }

  /** Python's `d in s`. */
  function Contains(s: string, d: string): (b: bool)
    ensures b <==> exists i: nat :: OccursAt(s, d, i)
  {
    Find(s, d).Some?
  }

  /** Python's `s.split(sep, 1)`: `[s]` when `sep` does not occur in `s`,
      otherwise the parts before and after the first occurrence of `sep`.
      Python raises `ValueError` for an empty separator. */
  function SplitOnce(s: string, sep: string): (parts: seq<string>)
    requires sep != []
    ensures |parts| == 1 <==> !Contains(s, sep)
    ensures |parts| == 1 ==> parts[0] == s
    ensures |parts| == 2 ==> parts[0] + sep + parts[1] == s
    ensures |parts| == 2 ==> IsFirstOccurrence(s, sep, |parts[0]|)
    ensures |parts| == 1 || |parts| == 2
  {
    match Find(s, sep)
    case None => [s]
    case Some(i) =>
      assert s[..i] + sep + s[i + |sep|..] == s by {
        assert s == s[..i] + s[i..i + |sep|] + s[i + |sep|..];
      }
      [s[..i], s[i + |sep|..]]
  }

  /** The part before the split contains no separator, so the split is at
      the first occurrence. */
  lemma SplitLeftHasNoSeparator(s: string, sep: string)
    requires sep != []
    requires |SplitOnce(s, sep)| == 2
    ensures !Contains(SplitOnce(s, sep)[0], sep)
  {
    var left := SplitOnce(s, sep)[0];
    assert s[..|left|] == left;
    forall j: nat ensures !OccursAt(left, sep, j) {
      if j + |sep| <= |left| {
        // An occurrence in the left part would be an earlier one in s.
        assert left[j..j + |sep|] == s[j..j + |sep|];
        assert OccursAt(left, sep, j) ==> OccursAt(s, sep, j);
        assert !OccursAt(s, sep, j);
      }
    }
  }

  /** An occurrence of a separator that begins and ends with whitespace
      inside a stripped string has text that is not all whitespace on
      both sides of it. */
  lemma SeparatorInsideStripped(s: string, sep: string, i: nat)
    requires IsStripped(s)
    requires OccursAt(s, sep, i)
    requires sep != [] && IsWhitespace(sep[0]) && IsWhitespace(sep[|sep| - 1])
    ensures !AllWhitespace(s[..i])
    ensures !AllWhitespace(s[i + |sep|..])
  {
    assert s[i] == sep[0];
    assert s[i + |sep| - 1] == sep[|sep| - 1];
    assert i > 0;
    assert s[..i][0] == s[0];
    assert i + |sep| < |s|;
    assert s[i + |sep|..][|s| - 1 - (i + |sep|)] == s[|s| - 1];
  }
}
