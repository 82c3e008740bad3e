/** `NewsCrew.run`: search both topics, extract the article lists, summarise,
    translate, assemble the page and send it. The search, JSON parsing,
    summary, translation and e-mail tools are parameters of the model; the run
    records every call it makes to them. */
module Pipeline {
  import opened Wrappers
  import opened Text
  import opened Extractor
  import opened Translator
  import opened Digest
  import opened Summarisation
  import opened TranslationStage
  import opened Assembly

  /** The query the technology articles are searched with. */
  const TechQuery: string := "technology trends"

  /** The query the UX articles are searched with. */
  const UxQuery: string := "user experience design UX"

  /** The external tools a run depends on. `search` never raises (the search tool
      answers "[]" on any error); `parse` is `json.loads` on a candidate span,
      `None` on a decode error; `summarise` and `translate` may raise; `send`
      answers with a status text and is taken never to raise. */
  datatype Services = Services(
    search: string -> string,
    parse: string -> Option<seq<Article>>,
    summarise: string -> Attempt<string>,
    translate: string -> Attempt<string>,
    send: (string, string) -> string)

  /** One call from the run to an external tool. */
  datatype Call =
    | SearchCall(query: string)
    | SummaryCall(url: string)
    | TranslateCall(text: string)
    | SendCall(recipient: string, html: string)

  /** How the run ends: stopped with nothing found, stopped with nothing summarised
      (both return `None` in the source), or finished with a status text. */
  datatype Outcome = NothingFound | NothingSummarised | Finished(status: string)

  /** The run's outcome, the calls it made in order, and the e-mail tool's answer,
      which the run only prints. */
  datatype RunResult = RunResult(outcome: Outcome, calls: seq<Call>, delivery: Option<string>)

  /** The technology articles extracted from the first search. */
  function TechArticles(svc: Services): seq<Article> {
    Extract(svc.search(TechQuery), svc.parse)
  }

  /** The UX articles extracted from the second search. */
  function UxArticles(svc: Services): seq<Article> {
    Extract(svc.search(UxQuery), svc.parse)
  }

  /** Every article found, technology first. */
  function Discovered(svc: Services): seq<Article> {
    TechArticles(svc) + UxArticles(svc)
  }

  /** The status text the run returns once the newsletter has been handed to the e-mail tool. */
  function FinishedStatus(count: nat): string {
    "✅ Processo concluído. Newsletter gerada com " + NatToString(count) + " artigos e enviada com sucesso."
  }

  /** The summary calls, one per article, in order. */
  function SummaryCalls(articles: seq<Article>): (r: seq<Call>)
    requires AllHaveFields(articles)
    ensures |r| == |articles|
    ensures forall k :: 0 <= k < |articles| ==> r[k] == SummaryCall(articles[k]["url"])
  {
    seq(|articles|, k requires 0 <= k < |articles| => SummaryCall(articles[k]["url"]))
  }

  /** The translation calls for the texts sent, in order. */
  function TranslateCalls(texts: seq<string>): (r: seq<Call>)
    ensures |r| == |texts|
    ensures forall k :: 0 <= k < |texts| ==> r[k] == TranslateCall(texts[k])
  {
    seq(|texts|, k requires 0 <= k < |texts| => TranslateCall(texts[k]))
  }

  /** The calls made before any translation: both searches, then one summary
      call per article. */
  function EarlyCalls(articles: seq<Article>): (r: seq<Call>)
    requires AllHaveFields(articles)
    ensures |r| == 2 + |articles|
    ensures r[0] == SearchCall(TechQuery) && r[1] == SearchCall(UxQuery)
    ensures forall k :: 0 <= k < |articles| ==> r[2 + k] == SummaryCall(articles[k]["url"])
  {
    [SearchCall(TechQuery), SearchCall(UxQuery)] + SummaryCalls(articles)
  }

  /** The call is to the translation or e-mail tool. */
  predicate IsLateCall(c: Call) {
    c.TranslateCall? || c.SendCall?
  }

  /** One run of the pipeline for `recipient`, laying the page out with `markup`. */
  function Run(markup: Markup, recipient: string, svc: Services): (r: RunResult)
    requires AllHaveFields(Discovered(svc))
    ensures r.outcome.NothingFound? <==> Discovered(svc) == []
    ensures r.outcome.Finished? <==> r.delivery.Some?
  {
    var tech := TechArticles(svc);
    var ux := UxArticles(svc);
    var articles := tech + ux;
    var searches := [SearchCall(TechQuery), SearchCall(UxQuery)];
    if articles == [] then
      RunResult(NothingFound, searches, None)
    else
      var summaries := Summarise(articles, |tech|, svc.summarise);
      var summarised := EarlyCalls(articles);
      if summaries == [] then
        RunResult(NothingSummarised, summarised, None)
      else
        var translated := TranslateEntries(summaries, svc.translate);
        var html := Page(markup, translated.value);
        var delivery := svc.send(recipient, html);
        RunResult(Finished(FinishedStatus(|translated.value|)),
                  summarised + TranslateCalls(translated.requests) + [SendCall(recipient, html)],
                  Some(delivery))
  }

  /** The searches and summary calls made before any translation. */
  lemma EarlyCallsAreEarly(articles: seq<Article>)
    requires AllHaveFields(articles)
    ensures forall k :: 0 <= k < |EarlyCalls(articles)| ==> !IsLateCall(EarlyCalls(articles)[k])
  {
  }

  /** A trace of early calls, then translations, then one send ends with that
      send and holds no other. */
  lemma SendComesLast(early: seq<Call>, requests: seq<string>, send: Call)
    requires forall k :: 0 <= k < |early| ==> !IsLateCall(early[k])
    requires send.SendCall?
    ensures var calls := early + TranslateCalls(requests) + [send];
      calls[|calls| - 1] == send && forall k :: 0 <= k < |calls| - 1 ==> !calls[k].SendCall?
  {
    var middle := early + TranslateCalls(requests);
    assert forall k :: 0 <= k < |middle| ==> !middle[k].SendCall?;
    assert forall k :: 0 <= k < |middle| ==> (middle + [send])[k] == middle[k];
  }

  /** The run starts with the two searches; when it stops early it never calls
      the translation or e-mail tool; when it finishes, its last call, and only
      that one, sends the page to the recipient. */
  lemma RunCalls(markup: Markup, recipient: string, svc: Services)
    requires AllHaveFields(Discovered(svc))
    ensures var r := Run(markup, recipient, svc);
      && |r.calls| >= 2 && r.calls[0] == SearchCall(TechQuery) && r.calls[1] == SearchCall(UxQuery)
      && (!r.outcome.Finished? ==> forall k :: 0 <= k < |r.calls| ==> !IsLateCall(r.calls[k]))
      && (r.outcome.Finished? ==>
            && r.calls[|r.calls| - 1].SendCall?
            && r.calls[|r.calls| - 1].recipient == recipient
            && forall k :: 0 <= k < |r.calls| - 1 ==> !r.calls[k].SendCall?)
  {
    var articles := Discovered(svc);
    if articles != [] {
      EarlyCallsAreEarly(articles);
      var summaries := Summarise(articles, |TechArticles(svc)|, svc.summarise);
      if summaries != [] {
        var translated := TranslateEntries(summaries, svc.translate);
        var early := EarlyCalls(articles);
        SendComesLast(early, translated.requests, SendCall(recipient, Page(markup, translated.value)));
      }
    }
  }

  /** A finished trace is the early calls, then one translation call per
      request, then the send. */
  lemma FinishedCallsLayout(early: seq<Call>, requests: seq<string>, send: Call)
    ensures var calls := early + TranslateCalls(requests) + [send];
      && |calls| == |early| + |requests| + 1
      && (forall k :: 0 <= k < |early| ==> calls[k] == early[k])
      && (forall k :: 0 <= k < |requests| ==> calls[|early| + k] == TranslateCall(requests[k]))
  {
  }

  /** The trace holds one translation call per chunk, in order, from index
      `offset` on, and then exactly one more call. */
  predicate TranslatesAt(calls: seq<Call>, offset: nat, chunks: seq<string>) {
    && |calls| == offset + |chunks| + 1
    && forall k :: 0 <= k < |chunks| ==> calls[offset + k] == TranslateCall(chunks[k])
  }

  /** In such a trace the translation calls start right after the early calls
      and follow the chunks one by one. */
  lemma TranslatedSpan(calls: seq<Call>, early: seq<Call>, requests: seq<string>, send: Call,
                       offset: nat, chunks: seq<string>)
    requires calls == early + TranslateCalls(requests) + [send]
    requires offset == |early| && requests == chunks
    ensures TranslatesAt(calls, offset, chunks)
  {
    FinishedCallsLayout(early, requests, send);
  }

  /** After the two searches, a run that found articles asks the summary tool
      about each article's url, technology articles first; when nothing is kept
      those are its last calls. */
  lemma RunSummaryCalls(markup: Markup, recipient: string, svc: Services)
    requires AllHaveFields(Discovered(svc))
    ensures var articles := Discovered(svc);
      var r := Run(markup, recipient, svc);
      articles != [] ==>
        && |r.calls| >= 2 + |articles|
        && (forall k :: 0 <= k < |articles| ==> r.calls[2 + k] == SummaryCall(articles[k]["url"]))
        && (r.outcome.NothingSummarised? ==> |r.calls| == 2 + |articles|)
  {
    var articles := Discovered(svc);
    var summaries := Summarise(articles, |TechArticles(svc)|, svc.summarise);
    if articles != [] && summaries != [] {
      var translated := TranslateEntries(summaries, svc.translate);
      FinishedCallsLayout(EarlyCalls(articles), translated.requests, SendCall(recipient, Page(markup, translated.value)));
    }
  }

  /** The entries that survive summarising, in the run's order. */
  function KeptEntries(svc: Services): seq<Entry>
    requires AllHaveFields(Discovered(svc))
  {
    Summarise(Discovered(svc), |TechArticles(svc)|, svc.summarise)
  }

  /** A finished run's calls are the early calls, the stage's translation
      requests and the send of the page built from its results. */
  lemma RunFinishedTrace(markup: Markup, recipient: string, svc: Services)
    requires AllHaveFields(Discovered(svc))
    ensures var translated := TranslateEntries(KeptEntries(svc), svc.translate);
      var r := Run(markup, recipient, svc);
      r.outcome.Finished? ==>
        r.calls == EarlyCalls(Discovered(svc)) + TranslateCalls(translated.requests)
                   + [SendCall(recipient, Page(markup, translated.value))]
  {
  }

  /** When no translation call raises, a finished run translates exactly the
      kept entries' chunks, entry by entry, between the summary calls and the send. */
  lemma RunTranslateCalls(markup: Markup, recipient: string, svc: Services)
    requires AllHaveFields(Discovered(svc))
    requires AllReturn(EntryChunks(KeptEntries(svc)), svc.translate)
    ensures var articles := Discovered(svc);
      var chunks := EntryChunks(KeptEntries(svc));
      var r := Run(markup, recipient, svc);
      r.outcome.Finished? ==> TranslatesAt(r.calls, 2 + |articles|, chunks)
  {
    var r := Run(markup, recipient, svc);
    if r.outcome.Finished? {
      var chunks := EntryChunks(KeptEntries(svc));
      var translated := TranslateEntries(KeptEntries(svc), svc.translate);
      var early := EarlyCalls(Discovered(svc));
      var send := SendCall(recipient, Page(markup, translated.value));
      TranslateEntriesRequests(KeptEntries(svc), svc.translate);
      RunFinishedTrace(markup, recipient, svc);
      TranslatedSpan(r.calls, early, translated.requests, send, 2 + |Discovered(svc)|, chunks);
    }
  }

  /** The run stops after summarising, before any translation or e-mail, exactly
      when articles were found but every one of them was dropped. */
  lemma RunStopsWhenNothingSurvives(markup: Markup, recipient: string, svc: Services)
    requires AllHaveFields(Discovered(svc))
    ensures var articles := Discovered(svc);
      Run(markup, recipient, svc).outcome.NothingSummarised?
      <==> articles != [] && forall j :: 0 <= j < |articles| ==> !Kept(articles, svc.summarise, j)
  {
    SummariseEmptyIffAllDropped(Discovered(svc), |TechArticles(svc)|, svc.summarise);
  }

  /** A finished run reports success with the number of surviving articles,
      whatever text the e-mail tool returned, and sends the page built from the
      translated summaries to the recipient. */
  lemma RunFinishedReport(markup: Markup, recipient: string, svc: Services)
    requires AllHaveFields(Discovered(svc))
    requires Run(markup, recipient, svc).outcome.Finished?
    ensures var articles := Discovered(svc);
      var summaries := Summarise(articles, |TechArticles(svc)|, svc.summarise);
      var translated := TranslateEntries(summaries, svc.translate).value;
      var r := Run(markup, recipient, svc);
      && r.outcome.status == FinishedStatus(|KeptFrom(articles, svc.summarise, 0)|)
      && r.calls[|r.calls| - 1] == SendCall(recipient, Page(markup, translated))
      && r.delivery == Some(svc.send(recipient, Page(markup, translated)))
  {
    SummariseSpec(Discovered(svc), |TechArticles(svc)|, svc.summarise);
  }

  /** The text the e-mail tool returns never changes how the run ends. */
  lemma RunIgnoresDelivery(markup: Markup, recipient: string, svc: Services, send: (string, string) -> string)
    requires AllHaveFields(Discovered(svc))
    ensures Run(markup, recipient, svc).outcome == Run(markup, recipient, svc.(send := send)).outcome
    ensures Run(markup, recipient, svc).calls == Run(markup, recipient, svc.(send := send)).calls
  {
    assert Discovered(svc) == Discovered(svc.(send := send));
  }

  /** `NewsCrew.run` itself: the run with the source's markup. */
  function NewsletterRun(recipient: string, svc: Services): RunResult
    requires AllHaveFields(Discovered(svc))
  {
    Run(SourceMarkup, recipient, svc)
  }
}
