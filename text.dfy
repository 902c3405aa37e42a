/**
 * Character classes and string helpers standing for the Python string
 * operations the user rules rely on: `str.lower`, `str.strip`, `str.split`,
 * substring search and the regular-expression character classes.
 * Only the ASCII part of Python's Unicode tables is modelled.
 */
module Text {
  import opened Wrappers

  predicate IsUpper(c: char) { 'A' <= c <= 'Z' }
  predicate IsLower(c: char) { 'a' <= c <= 'z' }
  predicate IsDigit(c: char) { '0' <= c <= '9' }
  predicate IsLetter(c: char) { IsUpper(c) || IsLower(c) }

  /**
   * The ASCII characters for which Python's `str.isspace` holds: space, tab,
   * line feed, vertical tab, form feed, carriage return and the four
   * separators 0x1C to 0x1F.
   */
  predicate IsSpace(c: char) {
    c == ' ' || c == '\t' || c == '\n' || c == '\U{B}' || c == '\U{C}' || c == '\r'
    || c == '\U{1C}' || c == '\U{1D}' || c == '\U{1E}' || c == '\U{1F}'
  }

  /** `str.lower` on one character. */
  function LowerChar(c: char): (d: char)
    ensures !IsUpper(d)
    ensures IsUpper(c) ==> IsLower(d)
    ensures !IsUpper(c) ==> d == c
  {
    if IsUpper(c) then (c as int + 32) as char else c
  }

  /** `str.lower`. */
  function Lower(s: string): (r: string)
    ensures |r| == |s|
    ensures forall i :: 0 <= i < |s| ==> r[i] == LowerChar(s[i])
  {
    if s == [] then [] else [LowerChar(s[0])] + Lower(s[1..])
  }

  lemma {:induction false} LowerIdempotent(s: string)
    ensures Lower(Lower(s)) == Lower(s)
  {
    var r := Lower(s);
    assert forall i :: 0 <= i < |r| ==> Lower(r)[i] == r[i];
  }

  predicate AllSpace(s: string) { forall i :: 0 <= i < |s| ==> IsSpace(s[i]) }

  /** Number of leading whitespace characters. */
  function LeadingSpace(s: string): (n: nat)
    ensures n <= |s|
    ensures AllSpace(s[..n])
    ensures n < |s| ==> !IsSpace(s[n])
  {
    if s == [] || !IsSpace(s[0]) then 0
    else
      var k := LeadingSpace(s[1..]);
      assert s[1..][..k] == s[1..k + 1];
      1 + k
  }

  /** Number of trailing whitespace characters. */
  function TrailingSpace(s: string): (n: nat)
    ensures n <= |s|
    ensures AllSpace(s[|s| - n..])
    ensures n < |s| ==> !IsSpace(s[|s| - n - 1])
  {
    if s == [] || !IsSpace(s[|s| - 1]) then 0
    else
      var k := TrailingSpace(s[..|s| - 1]);
      assert s[..|s| - 1][|s| - 1 - k..] == s[|s| - 1 - k..|s| - 1];
      1 + k
  }

  /**
   * `str.strip()`: the result is the slice of `s` left after removing the
   * whitespace at both ends, and it neither starts nor ends with whitespace.
   */
  function Strip(s: string): (r: string)
    ensures exists i, j :: 0 <= i <= j <= |s| && r == s[i..j] && AllSpace(s[..i]) && AllSpace(s[j..])
    ensures r != [] ==> !IsSpace(r[0]) && !IsSpace(r[|r| - 1])
    ensures r == [] <==> AllSpace(s)
  {
    var i := LeadingSpace(s);
    var j := |s| - TrailingSpace(s[i..]);
    StripCutBounds(s, i, j);
    StripCutEnds(s, i, j);
    StripCutEmpty(s, i, j);
    assert i < j ==> s[i..j][0] == s[i] && s[i..j][j - i - 1] == s[j - 1];
    s[i..j]
  }

  /** The cut of `Strip` at `i` and `j` removes only whitespace. */
  lemma StripCutBounds(s: string, i: nat, j: nat)
    requires i == LeadingSpace(s) && j == |s| - TrailingSpace(s[i..])
    ensures i <= j <= |s| && AllSpace(s[..i]) && AllSpace(s[j..])
  {
    TrailingAfter(s, i);
  }

  /** A non-empty cut starts and ends with a non-space. */
  lemma StripCutEnds(s: string, i: nat, j: nat)
    requires i == LeadingSpace(s) && j == |s| - TrailingSpace(s[i..])
    ensures i < j ==> !IsSpace(s[i]) && !IsSpace(s[j - 1])
  {
    TrailingAfter(s, i);
  }

  /** The cut is empty exactly when `s` is all whitespace. */
  lemma StripCutEmpty(s: string, i: nat, j: nat)
    requires i == LeadingSpace(s) && j == |s| - TrailingSpace(s[i..])
    ensures i == j <==> AllSpace(s)
  {
    LeadingAll(s);
    TrailingAfter(s, i);
  }

  /** The leading whitespace is all of `s` exactly when `s` is all whitespace. */
  lemma LeadingAll(s: string)
    ensures LeadingSpace(s) == |s| <==> AllSpace(s)
  {
    if LeadingSpace(s) == |s| {
      assert s[..|s|] == s;
    }
  }

  /**
   * The trailing whitespace of the suffix `s[i..]`, seen in `s`; when the
   * suffix starts with a non-space it is not all trailing whitespace.
   */
  lemma TrailingAfter(s: string, i: nat)
    requires i <= |s|
    ensures var k := TrailingSpace(s[i..]);
      i <= |s| - k && AllSpace(s[|s| - k..])
      && (i < |s| - k ==> !IsSpace(s[|s| - k - 1]))
      && (i < |s| && !IsSpace(s[i]) ==> i < |s| - k)
  {
    var t := s[i..];
    var k := TrailingSpace(t);
    assert t[|t| - k..] == s[|s| - k..];
    if i < |s| && k == |t| {
      assert t[0] == s[i] && t[|t| - k..] == t;
    }
  }

  /** Where `Strip` cuts `s`. */
  lemma StripSlice(s: string) returns (i: nat, j: nat)
    ensures i <= j <= |s| && Strip(s) == s[i..j]
  {
    i, j :| i <= j <= |s| && Strip(s) == s[i..j];
  }

  /** A string that neither starts nor ends with whitespace is its own strip. */
  lemma StripUnchanged(s: string)
    requires s != [] && !IsSpace(s[0]) && !IsSpace(s[|s| - 1])
    ensures Strip(s) == s
  {
    assert LeadingSpace(s) == 0;
    assert s[0..] == s;
    assert TrailingSpace(s) == 0;
  }

  /** Stripping twice strips nothing more. */
  lemma StripIdempotent(s: string)
    ensures Strip(Strip(s)) == Strip(s)
  {
    if Strip(s) != [] {
      StripUnchanged(Strip(s));
    }
  }

  /**
   * `w` stands in `s` at `i` as a whole word: only whitespace before it, and
   * the end of `s` or whitespace right after it.
   */
  predicate WordAt(s: string, w: string, i: nat) {
    i + |w| <= |s| && AllSpace(s[..i]) && s[i..i + |w|] == w
    && (i + |w| == |s| || IsSpace(s[i + |w|]))
  }

  /** `s` begins, after any leading whitespace, with the whole word `w`. */
  ghost predicate StartsWithWord(s: string, w: string) {
    exists i: nat :: WordAt(s, w, i)
  }

  /**
   * The whitespace-separated words of `s`, as `str.split()` gives them; the
   * first is the word `s` starts with (`WordsSplit` adds that the rest are
   * the words of what follows it).
   */
  function Words(s: string): (ws: seq<string>)
    ensures forall w :: w in ws ==> w != [] && forall i :: 0 <= i < |w| ==> !IsSpace(w[i])
    ensures ws == [] <==> AllSpace(s)
    ensures ws != [] ==> StartsWithWord(s, ws[0])
    decreases |s|
  {
    var i := LeadingSpace(s);
    if i == |s| then
      assert s[..i] == s;
      []
    else
      var t := s[i..];
      var n := WordLength(t);
      FirstWordAt(s, i, n);
      [t[..n]] + Words(t[n..])
  }

  /** The word found after the leading whitespace stands at its position. */
  lemma FirstWordAt(s: string, i: nat, n: nat)
    requires i == LeadingSpace(s) && i < |s| && n == WordLength(s[i..])
    ensures WordAt(s, s[i..][..n], i)
  {
    assert s[i..i + n] == s[i..][..n];
  }

  /**
   * After the first word, `split()` goes on with the words of the
   * remainder; `i` is where the first word stands.
   */
  lemma WordsSplit(s: string) returns (i: nat)
    requires !AllSpace(s)
    ensures Words(s) != [] && WordAt(s, Words(s)[0], i)
    ensures Words(s)[1..] == Words(s[i + |Words(s)[0]|..])
  {
    i := LeadingSpace(s);
    var n := WordLength(s[i..]);
    WordsUnfold(s, i, n);
    FirstWordAt(s, i, n);
    var ws := Words(s);
    assert s[i + n..] == s[i..][n..];
    assert ws[0] == s[i..][..n] && |ws[0]| == n;
    assert ws[1..] == Words(s[i + n..]);
  }

  /** One step of `Words`: the first word, then the words after it. */
  lemma WordsUnfold(s: string, i: nat, n: nat)
    requires i == LeadingSpace(s) && i < |s| && n == WordLength(s[i..])
    ensures n <= |s| - i && Words(s) == [s[i..][..n]] + Words(s[i..][n..])
  {
  }

  /** Length of the run of non-whitespace characters that starts `s`. */
  function WordLength(s: string): (n: nat)
    ensures n <= |s|
    ensures forall i :: 0 <= i < n ==> !IsSpace(s[i])
    ensures n < |s| ==> IsSpace(s[n])
    ensures s != [] && !IsSpace(s[0]) ==> n > 0
  {
    if s == [] || IsSpace(s[0]) then 0 else 1 + WordLength(s[1..])
  }

  /** `needle in hay` for Python strings. */
  predicate Contains(hay: string, needle: string) {
    exists i :: 0 <= i <= |hay| && needle <= hay[i..]
  }

  /** A case-insensitive substring test, as an `icontains` lookup performs it. */
  predicate ContainsIgnoringCase(hay: string, needle: string) {
    Contains(Lower(hay), Lower(needle))
  }

  /** An exact occurrence is also an occurrence when case is ignored. */
  lemma ContainsIgnoresCase(hay: string, needle: string)
    ensures Contains(hay, needle) ==> ContainsIgnoringCase(hay, needle)
  {
    if Contains(hay, needle) {
      var i :| 0 <= i <= |hay| && needle <= hay[i..];
      var lh, ln := Lower(hay), Lower(needle);
      forall k | 0 <= k < |ln| ensures ln[k] == lh[i..][k] {
        assert needle[k] == hay[i + k];
      }
      assert ln <= lh[i..];
    }
  }

  /** Index of the first occurrence of `c` in `s`, if any. */
  function IndexOf(s: string, c: char): (r: Option<nat>)
    ensures r.Some? ==> r.value < |s| && s[r.value] == c
    ensures r.Some? ==> forall i :: 0 <= i < r.value ==> s[i] != c
    ensures r.None? ==> c !in s
  {
    if s == [] then None
    else if s[0] == c then Some(0)
    else
      var r := IndexOf(s[1..], c);
      assert s == [s[0]] + s[1..];
      if r.None? then None else Some(r.value + 1)
  }

  /** Index of the last occurrence of `c` in `s`, if any. */
  function LastIndexOf(s: string, c: char): (r: Option<nat>)
    ensures r.Some? ==> r.value < |s| && s[r.value] == c
    ensures r.Some? ==> forall i :: r.value < i < |s| ==> s[i] != c
    ensures r.None? ==> c !in s
  {
    if s == [] then None
    else if s[|s| - 1] == c then Some(|s| - 1)
    else
      var r := LastIndexOf(s[..|s| - 1], c);
      assert s == s[..|s| - 1] + [s[|s| - 1]];
      r
  }

  /** The first occurrence is the position with `c` and no `c` before it. */
  lemma IndexOfAt(s: string, c: char, a: nat)
    requires a < |s| && s[a] == c && forall i :: 0 <= i < a ==> s[i] != c
    ensures IndexOf(s, c) == Some(a)
  {
    assert s[a] in s;
  }

  /** The last occurrence is the position with `c` and no `c` after it. */
  lemma LastIndexOfAt(s: string, c: char, a: nat)
    requires a < |s| && s[a] == c && forall i :: a < i < |s| ==> s[i] != c
    ensures LastIndexOf(s, c) == Some(a)
  {
    assert s[a] in s;
  }
}
