/** Step 4 of `NewsCrew.run`: the title and the summary of every kept entry are
    translated; url and category are copied, and no entry is ever dropped. */
module TranslationStage {
  import opened Wrappers
  import opened Digest
  import opened Translator

  /** Translate each entry's title, then its summary, entry after entry; the
      requests are every text sent to the service, in call order. */
  function TranslateEntries(entries: seq<Entry>, translate: string -> Attempt<string>): (r: Traced<seq<Entry>>)
    ensures |r.value| == |entries|
    ensures forall k :: 0 <= k < |entries| ==>
              && r.value[k].url == entries[k].url
              && r.value[k].category == entries[k].category
              && r.value[k].title == TranslateText(entries[k].title, translate).value
              && r.value[k].summary == TranslateText(entries[k].summary, translate).value
  {
    if entries == [] then Traced([], [])
    else
      var e := entries[0];
      var title := TranslateText(e.title, translate);
      var summary := TranslateText(e.summary, translate);
      var rest := TranslateEntries(entries[1..], translate);
      Traced([Entry(title.value, summary.value, e.url, e.category)] + rest.value,
             title.requests + summary.requests + rest.requests)
  }

  /** The texts the stage sends when no call raises: each entry's title chunks,
      then its summary chunks, entry after entry. */
  function EntryChunks(entries: seq<Entry>): seq<string> {
    if entries == [] then []
    else Chunks(entries[0].title) + Chunks(entries[0].summary) + EntryChunks(entries[1..])
  }

  /** When no call raises, the stage sends exactly the entries' chunks, in order. */
  lemma {:induction false} TranslateEntriesRequests(entries: seq<Entry>, translate: string -> Attempt<string>)
    requires AllReturn(EntryChunks(entries), translate)
    ensures TranslateEntries(entries, translate).requests == EntryChunks(entries)
  {
    if entries != [] {
      var e := entries[0];
      var head := Chunks(e.title) + Chunks(e.summary);
      AllReturnAppend(head, EntryChunks(entries[1..]), translate);
      AllReturnAppend(Chunks(e.title), Chunks(e.summary), translate);
      TranslateTextRequests(e.title, translate);
      TranslateTextRequests(e.summary, translate);
      TranslateEntriesRequests(entries[1..], translate);
    }
  }

  /** When every translation call fails, the stage hands back the entries
      unchanged, provided each title and summary is sent at all. */
  lemma {:induction false} TranslateEntriesFallback(entries: seq<Entry>)
    requires forall k :: 0 <= k < |entries| ==> HasChunks(entries[k].title) && HasChunks(entries[k].summary)
    ensures TranslateEntries(entries, Unavailable).value == entries
  {
    if entries != [] {
      TranslateEntriesFallback(entries[1..]);
      UnavailableFallsBack(entries[0].title);
      UnavailableFallsBack(entries[0].summary);
      assert [entries[0]] + entries[1..] == entries;
    }
  }
}
