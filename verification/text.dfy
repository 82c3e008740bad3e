/** The handful of Python string operations the pipeline relies on:
    `str.split`, `str.join`, `str.strip`, `str.startswith`, `in` and `str.lower`. */
module Text {
  import opened Wrappers

  /** The characters for which Python's `str.isspace` holds, as inclusive code
      point ranges: the ASCII controls TAB..CR and FS..US, SPACE, NEL, NBSP, and
      the Unicode space, line and paragraph separators. */
  const WhitespaceRanges: seq<(int, int)> :=
    [(0x09, 0x0D), (0x1C, 0x20), (0x85, 0x85), (0xA0, 0xA0), (0x1680, 0x1680),
     (0x2000, 0x200A), (0x2028, 0x2029), (0x202F, 0x202F), (0x205F, 0x205F), (0x3000, 0x3000)]

  /** Code point `n` lies in one of `ranges`. */
  predicate InRanges(n: int, ranges: seq<(int, int)>) {
    |ranges| > 0 && ((ranges[0].0 <= n <= ranges[0].1) || InRanges(n, ranges[1..]))
  }

  /** Python's `str.isspace` for one character. */
  predicate IsSpace(c: char) {
    InRanges(c as int, WhitespaceRanges)
  }

  /** True when `s.strip()` is the empty string, i.e. `s` is falsy after stripping. */
  predicate IsBlank(s: string) {
    forall i :: 0 <= i < |s| ==> IsSpace(s[i])
  }

  /** True when `s` starts or ends with whitespace, so that `strip()` changes it. */
  predicate IsPadded(s: string) {
    |s| > 0 && (IsSpace(s[0]) || IsSpace(s[|s| - 1]))
  }

  /** Python's `str.lstrip()`: the suffix left after dropping leading whitespace. */
  function TrimStart(s: string): (r: string)
    ensures |r| <= |s| && r == s[|s| - |r|..]
    ensures forall i :: 0 <= i < |s| - |r| ==> IsSpace(s[i])
    ensures r == [] || !IsSpace(r[0])
  {
    if |s| > 0 && IsSpace(s[0]) then TrimStart(s[1..]) else s
  }

  /** Python's `str.rstrip()`: the prefix left after dropping trailing whitespace. */
  function TrimEnd(s: string): (r: string)
    ensures |r| <= |s| && r == s[..|r|]
    ensures forall i :: |r| <= i < |s| ==> IsSpace(s[i])
    ensures r == [] || !IsSpace(r[|r| - 1])
  {
    if |s| > 0 && IsSpace(s[|s| - 1]) then TrimEnd(s[..|s| - 1]) else s
  }

  /** `r` sits at index `k` of `s`, and everything of `s` before and after it is whitespace. */
  predicate StrippedAt(s: string, r: string, k: int) {
    && OccursAt(s, r, k)
    && (forall i :: 0 <= i < k ==> IsSpace(s[i]))
    && (forall i :: k + |r| <= i < |s| ==> IsSpace(s[i]))
  }

  /** Right-stripping the left-stripped text leaves it in place, with only
      whitespace around it. */
  lemma TrimBothAt(s: string)
    ensures StrippedAt(s, TrimEnd(TrimStart(s)), |s| - |TrimStart(s)|)
  {
    var t := TrimStart(s);
    StrippedAtOf(s, t, TrimEnd(t), |s| - |t|);
  }

  /** A prefix `r` of the suffix `t` starting at `k`, with only whitespace before
      `k` in `s` and after `r` in `t`, is `s` stripped at `k`. */
  lemma StrippedAtOf(s: string, t: string, r: string, k: nat)
    requires k + |t| == |s| && t == s[k..]
    requires forall i :: 0 <= i < k ==> IsSpace(s[i])
    requires |r| <= |t| && r == t[..|r|]
    requires forall i :: |r| <= i < |t| ==> IsSpace(t[i])
    ensures StrippedAt(s, r, k)
  {
    assert s[k..k + |r|] == r;
    forall i | k + |r| <= i < |s| ensures IsSpace(s[i]) {
      assert s[i] == t[i - k];
    }
  }

  /** Python's `str.strip()`: `s` without leading and trailing whitespace. */
  function Strip(s: string): (r: string)
    ensures |r| <= |s|
    ensures exists k :: StrippedAt(s, r, k)
    ensures r == [] || (!IsSpace(r[0]) && !IsSpace(r[|r| - 1]))
  {
    TrimBothAt(s);
    TrimEnd(TrimStart(s))
  }

  /** Stripping yields the empty string exactly for blank text. */
  lemma StripEmptyIffBlank(s: string)
    ensures Strip(s) == [] <==> IsBlank(s)
  {
    var t := TrimStart(s);
    if !IsBlank(s) {
      var i :| 0 <= i < |s| && !IsSpace(s[i]);
      assert |t| > 0 && t[i - (|s| - |t|)] == s[i];
      assert !IsSpace(t[0]);
    }
  }

  /** Stripping leaves text unchanged exactly when it is not padded. */
  lemma StripFixedIffUnpadded(s: string)
    ensures Strip(s) == s <==> !IsPadded(s)
  {
    if !IsPadded(s) {
      assert TrimStart(s) == s;
    }
  }

  /** Python's `s.startswith(prefix)`. */
  predicate StartsWith(s: string, prefix: string) {
    |prefix| <= |s| && s[..|prefix|] == prefix
  }

  /** `needle` occurs in `s` starting at index `i`. */
  predicate OccursAt(s: string, needle: string, i: int) {
    0 <= i <= |s| - |needle| && s[i..i + |needle|] == needle
  }

  /** Python's `needle in s` for strings. */
  predicate Contains(s: string, needle: string)
    decreases |s|
  {
    StartsWith(s, needle) || (|s| > 0 && Contains(s[1..], needle))
  }

  /** `Contains` holds exactly when `needle` occurs at some position of `s`. */
  lemma {:induction false} ContainsIffOccurs(s: string, needle: string)
    ensures Contains(s, needle) <==> exists i :: OccursAt(s, needle, i)
    decreases |s|
  {
    if StartsWith(s, needle) {
      assert OccursAt(s, needle, 0);
    } else if |s| > 0 {
      ContainsIffOccurs(s[1..], needle);
      if Contains(s[1..], needle) {
        var i :| OccursAt(s[1..], needle, i);
        assert s[i + 1..i + 1 + |needle|] == s[1..][i..i + |needle|];
        assert OccursAt(s, needle, i + 1);
      }
      if exists i :: OccursAt(s, needle, i) {
        var i :| OccursAt(s, needle, i);
        assert i != 0;
        assert s[1..][i - 1..i - 1 + |needle|] == s[i..i + |needle|];
        assert OccursAt(s[1..], needle, i - 1);
      }
    }
  }

  /** The capitals `str.lower()` is modelled on: ASCII A..Z and the Latin-1
      capitals U+00C0..U+00DE other than the multiplication sign U+00D7. */
  predicate IsCapital(c: char) {
    ('A' <= c <= 'Z') || ('\U{C0}' <= c <= '\U{DE}' && c != '\U{D7}')
  }

  /** Python's `str.lower()` for one character: a capital becomes its small
      letter, 32 code points above it; every other character is kept. */
  function LowerChar(c: char): (r: char)
    ensures IsCapital(c) ==> r as int == c as int + 32
    ensures !IsCapital(c) ==> r == c
    ensures !IsCapital(r)
  {
    if IsCapital(c) then (c as int + 32) as char else c
  }

  /** Python's `str.lower()`, character by character. */
  function Lower(s: string): (r: string)
    ensures |r| == |s|
    ensures forall i :: 0 <= i < |s| ==> r[i] == LowerChar(s[i])
    ensures forall i :: 0 <= i < |r| ==> !IsCapital(r[i])
    ensures forall i :: 0 <= i < |s| && !IsCapital(s[i]) ==> r[i] == s[i]
  {
    seq(|s|, i requires 0 <= i < |s| => LowerChar(s[i]))
  }

  /** Lower-casing twice is lower-casing once. */
  lemma LowerIdempotent(s: string)
    ensures Lower(Lower(s)) == Lower(s)
  {
    var t := Lower(s);
    assert forall i :: 0 <= i < |t| ==> Lower(t)[i] == t[i];
  }

  /** Lower-casing commutes with concatenation. */
  lemma LowerAppend(a: string, b: string)
    ensures Lower(a + b) == Lower(a) + Lower(b)
  {
    assert forall i :: 0 <= i < |a + b| ==> Lower(a + b)[i] == (Lower(a) + Lower(b))[i];
  }

  /** The characters that lower-case to `c` are `c` itself and `upper`. */
  predicate LowersOnlyFrom(c: char, upper: char) {
    forall x :: LowerChar(x) == c ==> x == c || x == upper
  }

  /** A text that holds neither case of one letter of `needle` does not contain
      `needle` once lower-cased. */
  lemma AbsentLetterNotContains(s: string, needle: string, k: nat, upper: char)
    requires k < |needle| && LowersOnlyFrom(needle[k], upper)
    requires needle[k] !in s && upper !in s
    ensures !Contains(Lower(s), needle)
  {
    forall j | 0 <= j <= |s| - |needle| ensures !OccursAt(Lower(s), needle, j) {
      assert s[j + k] in s;
      assert Lower(s)[j..j + |needle|][k] == Lower(s)[j + k] != needle[k];
    }
    ContainsIffOccurs(Lower(s), needle);
  }

  /** When the only character of `pre + [c] + post` that lower-cases to
      `needle[k]` is `c`, and the character before it does not match
      `needle[k - 1]`, the lower-cased text does not contain `needle`. */
  lemma SoleLetterNotContains(pre: string, c: char, post: string, needle: string, k: nat, upper: char)
    requires 0 < k < |needle| && 0 < |pre|
    requires LowersOnlyFrom(needle[k], upper)
    requires needle[k] !in pre && upper !in pre && needle[k] !in post && upper !in post
    requires LowerChar(pre[|pre| - 1]) != needle[k - 1]
    ensures !Contains(Lower(pre + [c] + post), needle)
  {
    var s := pre + [c] + post;
    forall j | 0 <= j <= |s| - |needle| ensures !OccursAt(Lower(s), needle, j) {
      var window := Lower(s)[j..j + |needle|];
      if j + k < |pre| {
        assert s[j + k] == pre[j + k] && pre[j + k] in pre;
        assert window[k] == Lower(s)[j + k] != needle[k];
      } else if j + k > |pre| {
        assert s[j + k] == post[j + k - |pre| - 1] && post[j + k - |pre| - 1] in post;
        assert window[k] == Lower(s)[j + k] != needle[k];
      } else {
        assert s[j + k - 1] == pre[|pre| - 1];
        assert window[k - 1] == Lower(s)[j + k - 1] != needle[k - 1];
      }
    }
    ContainsIffOccurs(Lower(s), needle);
  }

  /** Python's `sep.join(parts)`. */
  function Join(parts: seq<string>, sep: string): (r: string)
    decreases |parts|
  {
    if |parts| == 0 then ""
    else if |parts| == 1 then parts[0]
    else parts[0] + sep + Join(parts[1..], sep)
  }

  /** The leftmost occurrence of `sep` in `s` at index `from` or later. */
  function FindFrom(s: string, sep: string, from: nat): (r: Option<nat>)
    requires |sep| > 0
    ensures r.Some? ==> from <= r.value && OccursAt(s, sep, r.value)
    ensures r.Some? ==> forall j :: from <= j < r.value ==> !OccursAt(s, sep, j)
    ensures r.None? ==> forall j :: from <= j ==> !OccursAt(s, sep, j)
    decreases |s| - from
  {
    if from + |sep| > |s| then None
    else if s[from..from + |sep|] == sep then Some(from)
    else FindFrom(s, sep, from + 1)
  }

  /** Python's `s.split(sep)` for a non-empty separator: the pieces between
      the leftmost non-overlapping occurrences of `sep`; never empty. */
  function Split(s: string, sep: string): (r: seq<string>)
    requires |sep| > 0
    ensures |r| >= 1
    decreases |s|
  {
    match FindFrom(s, sep, 0)
    case None => [s]
    case Some(i) => [s[..i]] + Split(s[i + |sep|..], sep)
  }

  /** Joining a piece in front of a non-empty list puts one separator between. */
  lemma JoinCons(piece: string, parts: seq<string>, sep: string)
    requires |parts| > 0
    ensures Join([piece] + parts, sep) == piece + sep + Join(parts, sep)
  {
    assert ([piece] + parts)[1..] == parts;
  }

  /** Text is the part before an index, the `n` characters from it, and the rest. */
  lemma SliceAround(s: string, i: nat, n: nat)
    requires i + n <= |s|
    ensures s == s[..i] + s[i..i + n] + s[i + n..]
  {
  }

  /** Joining the pieces of a split with the same separator gives back the text. */
  lemma {:induction false} JoinSplit(s: string, sep: string)
    requires |sep| > 0
    ensures Join(Split(s, sep), sep) == s
    decreases |s|
  {
    match FindFrom(s, sep, 0)
    case None =>
    case Some(i) =>
      var rest := s[i + |sep|..];
      assert Split(s, sep) == [s[..i]] + Split(rest, sep);
      JoinSplit(rest, sep);
      JoinCons(s[..i], Split(rest, sep), sep);
      SliceAround(s, i, |sep|);
  }

  /** No piece of a split contains the separator. */
  lemma {:induction false} SplitPiecesFree(s: string, sep: string)
    requires |sep| > 0
    ensures forall piece :: piece in Split(s, sep) ==> !Contains(piece, sep)
    decreases |s|
  {
    match FindFrom(s, sep, 0)
    case None =>
      NoOccurrenceNotContains(s, sep);
    case Some(i) =>
      SplitPiecesFree(s[i + |sep|..], sep);
      var piece := s[..i];
      forall j | OccursAt(piece, sep, j) ensures false {
        assert s[j..j + |sep|] == piece[j..j + |sep|];
        assert OccursAt(s, sep, j);
      }
      NoOccurrenceNotContains(piece, sep);
  }

  /** Text in which `needle` occurs nowhere does not contain it. */
  lemma NoOccurrenceNotContains(s: string, needle: string)
    requires forall j :: !OccursAt(s, needle, j)
    ensures !Contains(s, needle)
  {
    ContainsIffOccurs(s, needle);
  }

  /** The decimal digit for a value below ten. */
  function DigitChar(d: nat): char
    requires d < 10
  {
    "0123456789"[d]
  }

  /** Python's `str(n)` for a natural number: its decimal digits. */
  function NatToString(n: nat): (r: string)
    ensures |r| > 0
    ensures forall k :: 0 <= k < |r| ==> '0' <= r[k] <= '9'
    ensures r == "0" <==> n == 0
    ensures r == "0" || r[0] != '0'
  {
    if n < 10 then [DigitChar(n)]
    else
      var high := NatToString(n / 10);
      assert high[0] != '0';
      high + [DigitChar(n % 10)]
  }

  /** The number a string of decimal digits stands for. */
  function DecimalValue(s: string): nat
    requires forall k :: 0 <= k < |s| ==> '0' <= s[k] <= '9'
  {
    if s == [] then 0 else 10 * DecimalValue(s[..|s| - 1]) + (s[|s| - 1] as int - '0' as int)
  }

  /** Reading the digits of `str(n)` back gives `n`. */
  lemma {:induction false} NatToStringRoundTrip(n: nat)
    ensures DecimalValue(NatToString(n)) == n
  {
    if n >= 10 {
      NatToStringRoundTrip(n / 10);
      var r := NatToString(n);
      assert r[..|r| - 1] == NatToString(n / 10);
    }
  }
}
