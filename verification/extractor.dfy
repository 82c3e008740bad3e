/** The fail-soft JSON extractor of `NewsCrew._extract_json_from_string`: it looks
    for the greedy, DOTALL pattern `\[.*\]` and parses the matched span, giving
    back an empty list whenever there is no match or the span does not parse. */
module Extractor {
  import opened Wrappers

  /** A half-open range `[start, end)` of character positions. */
  datatype Span = Span(start: nat, end: nat)

  /** `text` holds some `[` with a `]` somewhere after it. */
  predicate HasBracketPair(text: string) {
    exists i, j :: 0 <= i < j < |text| && text[i] == '[' && text[j] == ']'
  }

  /** Positions `i` and `j` are the first `[` of `text` and the last `]` of `text`, in that order. */
  predicate OuterBrackets(text: string, i: int, j: int) {
    && 0 <= i < j < |text|
    && text[i] == '[' && text[j] == ']'
    && (forall k :: 0 <= k < i ==> text[k] != '[')
    && (forall k :: j < k < |text| ==> text[k] != ']')
  }

  /** Where the greedy `.*` stops when the match starts at `p`: the last `]`
      of `text` at an index above `p`, found by scanning back from index `q - 1`. */
  function LastCloseBelow(text: string, p: nat, q: nat): (r: Option<nat>)
    requires q <= |text|
    ensures r.Some? ==> p < r.value < q && text[r.value] == ']'
    ensures r.Some? ==> forall k :: r.value < k < q ==> text[k] != ']'
    ensures r.None? ==> forall k :: p < k < q ==> text[k] != ']'
    decreases q
  {
    if q <= p + 1 then None
    else if text[q - 1] == ']' then Some(q - 1)
    else LastCloseBelow(text, p, q - 1)
  }

  /** `re.search` from position `p` onwards: the leftmost start holding `[` for
      which the greedy `.*` can still be followed by a `]`. */
  function SearchFrom(text: string, p: nat): (r: Option<Span>)
    requires p <= |text|
    ensures r.Some? <==> exists i, j :: p <= i < j < |text| && text[i] == '[' && text[j] == ']'
    ensures r.Some? ==> p <= r.value.start < r.value.end - 1 && r.value.end <= |text|
    ensures r.Some? ==> text[r.value.start] == '[' && text[r.value.end - 1] == ']'
    ensures r.Some? ==> forall k :: p <= k < r.value.start ==> text[k] != '['
    ensures r.Some? ==> forall k :: r.value.end <= k < |text| ==> text[k] != ']'
    decreases |text| - p
  {
    if p == |text| then None
    else if text[p] == '[' && LastCloseBelow(text, p, |text|).Some? then
      Some(Span(p, LastCloseBelow(text, p, |text|).value + 1))
    else
      SearchFrom(text, p + 1)
  }

  /** The text matched by `\[.*\]` under DOTALL, if the pattern matches at all:
      exactly the run from the first `[` to the last `]`. */
  function Candidate(text: string): (r: Option<string>)
    ensures r.None? <==> !HasBracketPair(text)
    ensures r.Some? ==> exists i, j :: OuterBrackets(text, i, j) && r.value == text[i..j + 1]
  {
    match SearchFrom(text, 0)
    case None => None
    case Some(span) =>
      assert OuterBrackets(text, span.start, span.end - 1);
      Some(text[span.start..span.end])
  }

  /** `_extract_json_from_string`: parse the candidate span with `parse` (standing
      for `json.loads`, `None` when it raises `JSONDecodeError`); every failure gives `[]`. */
  function Extract<T>(text: string, parse: string -> Option<seq<T>>): (r: seq<T>)
    ensures !HasBracketPair(text) ==> r == []
    ensures r != [] ==> Candidate(text).Some? && parse(Candidate(text).value) == Some(r)
    ensures Candidate(text).Some? && parse(Candidate(text).value).Some? ==> r == parse(Candidate(text).value).value
    ensures Candidate(text).Some? && parse(Candidate(text).value).None? ==> r == []
  {
    match Candidate(text)
    case None => []
    case Some(span) =>
      match parse(span)
      case None => []
      case Some(items) => items
  }

  /** There is only one candidate: the first `[` and the last `]` fix it. */
  lemma OuterBracketsUnique(text: string, i: int, j: int, i': int, j': int)
    requires OuterBrackets(text, i, j) && OuterBrackets(text, i', j')
    ensures i == i' && j == j'
  {
  }

  /** Prose before the first `[` and after the last `]` is ignored: only the
      bracketed span reaches the parser. */
  lemma ExtractIgnoresProse<T>(before: string, inner: string, after: string, parse: string -> Option<seq<T>>)
    requires forall k :: 0 <= k < |before| ==> before[k] != '['
    requires forall k :: 0 <= k < |after| ==> after[k] != ']'
    ensures Candidate(before + "[" + inner + "]" + after) == Some("[" + inner + "]")
    ensures Extract(before + "[" + inner + "]" + after, parse)
         == (match parse("[" + inner + "]") case Some(items) => items case None => [])
  {
    var text := before + "[" + inner + "]" + after;
    var i, j := |before|, |before| + |inner| + 1;
    assert OuterBrackets(text, i, j) by {
      forall k | 0 <= k < i ensures text[k] != '[' {
        assert text[k] == before[k];
      }
      forall k | j < k < |text| ensures text[k] != ']' {
        assert text[k] == after[k - j - 1];
      }
    }
    assert text[i..j + 1] == "[" + inner + "]";
    var c := Candidate(text);
    assert c.Some? by { assert text[i] == '[' && text[j] == ']'; }
    var i', j' :| OuterBrackets(text, i', j') && c.value == text[i'..j' + 1];
    OuterBracketsUnique(text, i, j, i', j');
  }

  /** The extractor is fail-soft: a candidate the parser rejects yields no items. */
  lemma ExtractFailsSoft<T>(text: string, parse: string -> Option<seq<T>>)
    requires Candidate(text).Some? ==> parse(Candidate(text).value).None?
    ensures Extract(text, parse) == []
  {
  }
}
