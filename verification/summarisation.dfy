/** Step 3 of `NewsCrew.run`: every discovered article is summarised in turn;
    an article is dropped when the summary tool raises or answers with an
    error message, and kept otherwise with the category given by its position. */
module Summarisation {
  import opened Wrappers
  import opened Text
  import opened Digest

  /** The test of the summary text that marks the article as inaccessible:
      it starts with "Erro" or "Site", or mentions "indisponível" once lower-cased. */
  predicate IsFailureMarker(summary: string) {
    || StartsWith(summary, "Erro")
    || StartsWith(summary, "Site")
    || Contains(Lower(summary), "indisponível")
  }

  /** The summary tool's answer when the page's text is too short to summarise
      (src/tools/summary_tool.py:36). */
  const TooShortMessage: string := "O conteúdo " + "da página " + "era muito " + "curto para " + "gerar um " + "resumo."

  /** The summary tool's answer when no meaningful text can be extracted from
      the page (src/tools/summary_tool.py:27). */
  const NoTextMessage: string :=
    "Não foi poss" + ['í'] + ("vel extrair " + "conteúdo " + "textual " + "significativo " + "da URL.")

  /** A text that starts with neither 'E' nor 'S' and does not mention
      "indisponível" in any case is not a failure marker. */
  lemma NotFailureMarker(s: string)
    requires 0 < |s| && s[0] != 'E' && s[0] != 'S'
    requires !Contains(Lower(s), "indisponível")
    ensures !IsFailureMarker(s)
  {
    if 4 <= |s| {
      assert s[..4][0] == s[0];
    }
  }

  /** The summary tool's answer for a page with too little text gets past the marker. */
  lemma TooShortMessageIsKept()
    ensures !IsFailureMarker(TooShortMessage)
  {
    assert TooShortMessage[0] == 'O';
    assert "indisponível"[9] == 'v';
    AbsentLetterNotContains(TooShortMessage, "indisponível", 9, 'V');
    NotFailureMarker(TooShortMessage);
  }

  /** The summary tool's answer for a page with no text gets past the marker. */
  lemma NoTextMessageIsKept()
    ensures !IsFailureMarker(NoTextMessage)
  {
    var pre := "Não foi poss";
    var post := "vel extrair " + "conteúdo " + "textual " + "significativo " + "da URL.";
    var needle := "indisponível";
    assert 'í' !in post && 'Í' !in post;
    assert 'í' !in pre && 'Í' !in pre;
    assert LowerChar(pre[|pre| - 1]) != 'n';
    assert needle[8] == 'í' && needle[7] == 'n';
    SoleLetterNotContains(pre, 'í', post, needle, 8, 'Í');
    assert NoTextMessage[0] == 'N';
    NotFailureMarker(NoTextMessage);
  }

  /** A summary that mentions "indisponível" in any mix of cases, anywhere, is
      a failure marker. */
  lemma MarkerCatchesAnyCase(pre: string, word: string, post: string)
    requires Lower(word) == "indisponível"
    ensures IsFailureMarker(pre + word + post)
  {
    var s := pre + word + post;
    LowerAppend(pre + word, post);
    LowerAppend(pre, word);
    var low := Lower(s);
    assert low == Lower(pre) + "indisponível" + Lower(post);
    assert low[|pre|..|pre| + |word|] == "indisponível";
    assert OccursAt(low, "indisponível", |pre|);
    ContainsIffOccurs(low, "indisponível");
  }

  /** The word written in capitals, accented capital included, is caught too,
      though the text starts with neither "Erro" nor "Site". */
  lemma CapitalMarkerIsCaught()
    ensures IsFailureMarker("Portal " + "INDISPON" + ['Í'] + "VEL")
  {
    var word := "INDISPON" + ['Í'] + "VEL";
    assert Lower(word) == "indisponível";
    MarkerCatchesAnyCase("Portal ", word, "");
    assert "Portal " + word + "" == "Portal " + "INDISPON" + ['Í'] + "VEL";
  }

  /** The category of the article at position `i` of the tech-then-UX list. */
  function CategoryAt(i: nat, techCount: nat): Category {
    if i < techCount then Tech else Ux
  }

  /** The article at position `i` survives summarisation: the tool returned a
      text that is not a failure marker. */
  predicate Kept(articles: seq<Article>, summarise: string -> Attempt<string>, i: nat)
    requires i < |articles| && HasFields(articles[i])
  {
    var outcome := summarise(articles[i]["url"]);
    outcome.Returned? && !IsFailureMarker(outcome.value)
  }

  /** The loop over the articles from position `i` on. */
  function SummariseFrom(articles: seq<Article>, techCount: nat, summarise: string -> Attempt<string>, i: nat): (r: seq<Entry>)
    requires i <= |articles| && AllHaveFields(articles)
    decreases |articles| - i
  {
    if i == |articles| then []
    else
      var a := articles[i];
      match summarise(a["url"])
      case Raised => SummariseFrom(articles, techCount, summarise, i + 1)
      case Returned(summary) =>
        if IsFailureMarker(summary) then SummariseFrom(articles, techCount, summarise, i + 1)
        else [Entry(a["title"], summary, a["url"], CategoryAt(i, techCount))]
             + SummariseFrom(articles, techCount, summarise, i + 1)
  }

  /** The summaries of `articles` (tech articles first, `techCount` of them). */
  function Summarise(articles: seq<Article>, techCount: nat, summarise: string -> Attempt<string>): seq<Entry>
    requires AllHaveFields(articles)
  {
    SummariseFrom(articles, techCount, summarise, 0)
  }

  /** The positions, from `i` on, of the articles that survive, in increasing order. */
  function KeptFrom(articles: seq<Article>, summarise: string -> Attempt<string>, i: nat): (r: seq<nat>)
    requires i <= |articles| && AllHaveFields(articles)
    ensures forall k :: 0 <= k < |r| ==> i <= r[k] < |articles|
    ensures forall k, l :: 0 <= k < l < |r| ==> r[k] < r[l]
    ensures forall j :: i <= j < |articles| ==> (Kept(articles, summarise, j) <==> j in r)
    decreases |articles| - i
  {
    if i == |articles| then []
    else if Kept(articles, summarise, i) then [i] + KeptFrom(articles, summarise, i + 1)
    else KeptFrom(articles, summarise, i + 1)
  }

  /** An article whose page had no usable text is kept, with the summary
      tool's failure text as its summary. */
  lemma FailureTextIsKept(articles: seq<Article>, summarise: string -> Attempt<string>, i: nat)
    requires i < |articles| && HasFields(articles[i])
    requires summarise(articles[i]["url"]) in {Returned(NoTextMessage), Returned(TooShortMessage)}
    ensures Kept(articles, summarise, i)
  {
    NoTextMessageIsKept();
    TooShortMessageIsKept();
  }

  /** Entry `e` is the summary of the article at position `j`: its title and
      url, the text the tool returned for it, and category Tech exactly when
      `j` is below `techCount`. */
  predicate EntryOf(articles: seq<Article>, techCount: nat, summarise: string -> Attempt<string>, e: Entry, j: nat)
    requires j < |articles| && HasFields(articles[j])
  {
    && e.title == articles[j]["title"]
    && e.url == articles[j]["url"]
    && summarise(articles[j]["url"]) == Returned(e.summary)
    && (e.category == Tech <==> j < techCount)
  }

  /** Entry `k` of `r` is the summary of the article at position `kept[k]`. */
  predicate EntriesOf(articles: seq<Article>, techCount: nat, summarise: string -> Attempt<string>, r: seq<Entry>, kept: seq<nat>)
    requires AllHaveFields(articles)
    requires forall k :: 0 <= k < |kept| ==> kept[k] < |articles|
  {
    |r| == |kept| && forall k :: 0 <= k < |r| ==> EntryOf(articles, techCount, summarise, r[k], kept[k])
  }

  /** Putting an entry in front of its position keeps `EntriesOf`. */
  lemma EntriesOfCons(articles: seq<Article>, techCount: nat, summarise: string -> Attempt<string>,
                      e: Entry, j: nat, r: seq<Entry>, kept: seq<nat>)
    requires AllHaveFields(articles) && j < |articles|
    requires forall k :: 0 <= k < |kept| ==> kept[k] < |articles|
    requires EntryOf(articles, techCount, summarise, e, j)
    requires EntriesOf(articles, techCount, summarise, r, kept)
    ensures EntriesOf(articles, techCount, summarise, [e] + r, [j] + kept)
  {
    forall k | 0 <= k < |r| + 1
      ensures EntryOf(articles, techCount, summarise, ([e] + r)[k], ([j] + kept)[k])
    {
      if k > 0 {
        assert ([e] + r)[k] == r[k - 1] && ([j] + kept)[k] == kept[k - 1];
      }
    }
  }

  /** The summaries are the surviving articles, in discovery order: entry `k`
      comes from the `k`-th surviving article. */
  lemma {:induction false} SummariseFromSpec(articles: seq<Article>, techCount: nat, summarise: string -> Attempt<string>, i: nat)
    requires i <= |articles| && AllHaveFields(articles)
    ensures EntriesOf(articles, techCount, summarise,
                      SummariseFrom(articles, techCount, summarise, i), KeptFrom(articles, summarise, i))
    decreases |articles| - i
  {
    if i < |articles| {
      SummariseFromSpec(articles, techCount, summarise, i + 1);
      var rest := SummariseFrom(articles, techCount, summarise, i + 1);
      var keptRest := KeptFrom(articles, summarise, i + 1);
      if Kept(articles, summarise, i) {
        var a := articles[i];
        var e := Entry(a["title"], summarise(a["url"]).value, a["url"], CategoryAt(i, techCount));
        assert SummariseFrom(articles, techCount, summarise, i) == [e] + rest;
        EntriesOfCons(articles, techCount, summarise, e, i, rest, keptRest);
      } else {
        assert SummariseFrom(articles, techCount, summarise, i) == rest;
      }
    }
  }

  /** The summarisation stage as a whole: one entry per surviving article, in order. */
  lemma SummariseSpec(articles: seq<Article>, techCount: nat, summarise: string -> Attempt<string>)
    requires AllHaveFields(articles)
    ensures var r := Summarise(articles, techCount, summarise);
      var kept := KeptFrom(articles, summarise, 0);
      && |r| == |kept|
      && (forall j :: 0 <= j < |articles| ==> (Kept(articles, summarise, j) <==> j in kept))
      && forall k :: 0 <= k < |r| ==>
           && r[k].title == articles[kept[k]]["title"]
           && r[k].url == articles[kept[k]]["url"]
           && summarise(articles[kept[k]]["url"]) == Returned(r[k].summary)
           && !IsFailureMarker(r[k].summary)
           && (r[k].category == Tech <==> kept[k] < techCount)
  {
    SummariseFromSpec(articles, techCount, summarise, 0);
    var r := Summarise(articles, techCount, summarise);
    var kept := KeptFrom(articles, summarise, 0);
    forall k | 0 <= k < |kept|
      ensures Kept(articles, summarise, kept[k])
      ensures EntryOf(articles, techCount, summarise, r[k], kept[k])
    {
      assert kept[k] in kept;
    }
  }

  /** Summarisation keeps nothing exactly when every article is dropped. */
  lemma SummariseEmptyIffAllDropped(articles: seq<Article>, techCount: nat, summarise: string -> Attempt<string>)
    requires AllHaveFields(articles)
    ensures Summarise(articles, techCount, summarise) == []
            <==> forall j :: 0 <= j < |articles| ==> !Kept(articles, summarise, j)
  {
    SummariseSpec(articles, techCount, summarise);
    var kept := KeptFrom(articles, summarise, 0);
    if kept != [] {
      assert Kept(articles, summarise, kept[0]);
    }
  }
}
