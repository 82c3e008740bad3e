/** `NewsCrew._translate_text`: English-to-Portuguese translation of one text,
    split into sentence chunks when it is long, falling back to the original
    text when any call to the translation service raises. */
module Translator {
  import opened Wrappers
  import opened Text

  /** Texts longer than this many characters are translated sentence by sentence. */
  const ChunkLimit: nat := 500

  /** The separator used both to split long text and to join its translations. */
  const SentenceSeparator: string := ". "

  /** A value together with the texts sent to the translation service, in call order. */
  datatype Traced<T> = Traced(value: T, requests: seq<string>)

  /** The chunks a long text is translated in: the pieces of the split that are
      not blank, each stripped, in their original order. */
  function Sentences(pieces: seq<string>): (r: seq<string>)
    ensures |r| <= |pieces|
  {
    if pieces == [] then []
    else if IsBlank(pieces[0]) then Sentences(pieces[1..])
    else [Strip(pieces[0])] + Sentences(pieces[1..])
  }

  /** Concatenation regroups freely. */
  lemma AppendAssoc<T>(x: seq<T>, y: seq<T>, z: seq<T>)
    ensures x + (y + z) == (x + y) + z
  {
  }

  /** Chunking a piece in front of others is chunking it, then the others. */
  lemma SentencesCons(piece: string, rest: seq<string>)
    ensures Sentences([piece] + rest) == Sentences([piece]) + Sentences(rest)
  {
    var ps := [piece] + rest;
    assert ps[0] == piece && ps[1..] == rest;
    assert [piece][1..] == [];
    if IsBlank(piece) {
      assert Sentences(ps) == Sentences(rest);
      assert Sentences([piece]) == [];
    } else {
      var c := Strip(piece);
      assert Sentences(ps) == [c] + Sentences(rest);
      assert Sentences([piece]) == [c];
    }
  }

  /** Chunking a list of pieces is chunking each part of it in turn. */
  lemma {:induction false} SentencesAppend(a: seq<string>, b: seq<string>)
    ensures Sentences(a + b) == Sentences(a) + Sentences(b)
  {
    if a == [] {
      assert a + b == b;
    } else {
      var head, tail := [a[0]], a[1..];
      assert a == head + tail;
      assert a + b == head + (tail + b);
      SentencesAppend(tail, b);
      SentencesCons(a[0], tail);
      SentencesCons(a[0], tail + b);
      var x, y, z := Sentences(head), Sentences(tail), Sentences(b);
      assert Sentences(a + b) == x + (y + z);
      AppendAssoc(x, y, z);
    }
  }

  /** A single piece yields no chunk when blank, and its stripped text otherwise. */
  lemma SentencesOne(piece: string)
    ensures Sentences([piece]) == if IsBlank(piece) then [] else [Strip(piece)]
  {
    assert [piece][1..] == [];
  }

  /** Every chunk is non-empty and has no surrounding whitespace. */
  lemma {:induction false} SentencesAreStripped(pieces: seq<string>)
    ensures forall c :: c in Sentences(pieces) ==> c != [] && !IsPadded(c)
  {
    if pieces != [] {
      var p, rest := pieces[0], pieces[1..];
      SentencesAreStripped(rest);
      if IsBlank(p) {
        assert Sentences(pieces) == Sentences(rest);
      } else {
        ChunkIsStripped(p);
        var c := Strip(p);
        assert Sentences(pieces) == [c] + Sentences(rest);
      }
    }
  }

  /** A non-blank piece strips to a non-empty chunk without surrounding whitespace. */
  lemma ChunkIsStripped(piece: string)
    requires !IsBlank(piece)
    ensures Strip(piece) != [] && !IsPadded(Strip(piece))
  {
    StripEmptyIffBlank(piece);
  }

  /** Every chunk is translated without the service raising. */
  predicate AllReturn(chunks: seq<string>, translate: string -> Attempt<string>) {
    forall k :: 0 <= k < |chunks| ==> translate(chunks[k]).Returned?
  }

  /** The translations of the chunks, in order, when none of the calls raises. */
  function Translations(chunks: seq<string>, translate: string -> Attempt<string>): (r: seq<string>)
    requires AllReturn(chunks, translate)
    ensures |r| == |chunks|
  {
    seq(|chunks|, k requires 0 <= k < |chunks| => translate(chunks[k]).value)
  }

  /** The sentence loop: each non-blank piece is stripped and translated in turn;
      the first call that raises ends the loop. */
  function TranslatePieces(pieces: seq<string>, translate: string -> Attempt<string>): (r: Traced<Attempt<seq<string>>>)
  {
    if pieces == [] then Traced(Returned([]), [])
    else if IsBlank(pieces[0]) then TranslatePieces(pieces[1..], translate)
    else
      var chunk := Strip(pieces[0]);
      match translate(chunk)
      case Raised => Traced(Raised, [chunk])
      case Returned(t) =>
        var rest := TranslatePieces(pieces[1..], translate);
        match rest.value
        case Raised => Traced(Raised, [chunk] + rest.requests)
        case Returned(ts) => Traced(Returned([t] + ts), [chunk] + rest.requests)
  }

  /** A chunk list returns in full exactly when its head and its tail do. */
  lemma AllReturnCons(chunk: string, tail: seq<string>, translate: string -> Attempt<string>)
    ensures AllReturn([chunk] + tail, translate) <==> translate(chunk).Returned? && AllReturn(tail, translate)
  {
    var cs := [chunk] + tail;
    assert cs[0] == chunk;
    assert forall k :: 0 <= k < |tail| ==> cs[k + 1] == tail[k];
  }

  /** Every call on a joined chunk list returns exactly when every call on each part does. */
  lemma AllReturnAppend(a: seq<string>, b: seq<string>, translate: string -> Attempt<string>)
    ensures AllReturn(a + b, translate) <==> AllReturn(a, translate) && AllReturn(b, translate)
  {
    var cs := a + b;
    assert forall k :: 0 <= k < |a| ==> cs[k] == a[k];
    assert forall k :: 0 <= k < |b| ==> cs[|a| + k] == b[k];
  }

  /** Translating a chunk list is translating its head, then its tail. */
  lemma TranslationsCons(chunk: string, tail: seq<string>, translate: string -> Attempt<string>)
    requires AllReturn([chunk] + tail, translate)
    ensures translate(chunk).Returned? && AllReturn(tail, translate)
    ensures Translations([chunk] + tail, translate) == [translate(chunk).value] + Translations(tail, translate)
  {
    AllReturnCons(chunk, tail, translate);
    var cs := [chunk] + tail;
    var t := Translations(cs, translate);
    var h := [translate(chunk).value] + Translations(tail, translate);
    forall k | 0 <= k < |t| ensures t[k] == h[k] {
      if k > 0 {
        assert cs[k] == tail[k - 1];
      }
    }
  }

  /** The calls made stop at the first one that raised: every call but the
      last returned, and the last one raised. */
  predicate StopsAtFirstRaise(requests: seq<string>, translate: string -> Attempt<string>) {
    && |requests| > 0
    && AllReturn(requests[..|requests| - 1], translate)
    && translate(requests[|requests| - 1]).Raised?
  }

  /** `r` is what translating `chunks` one by one, stopping at the first call
      that raises, must give: the calls made are a prefix of the chunks, all of
      them exactly when none raises, and then the result is their translations;
      when one raises, the calls end with it. */
  predicate ChunkLoopResult(r: Traced<Attempt<seq<string>>>, chunks: seq<string>, translate: string -> Attempt<string>) {
    && |r.requests| <= |chunks|
    && r.requests == chunks[..|r.requests|]
    && (r.value.Returned? <==> AllReturn(chunks, translate))
    && (r.value.Returned? ==> r.requests == chunks && r.value.value == Translations(chunks, translate))
    && (r.value.Raised? ==> StopsAtFirstRaise(r.requests, translate))
  }

  /** Prepending a chunk whose translation returns keeps the loop's specification. */
  lemma ChunkLoopStep(chunk: string, tail: seq<string>, rest: Traced<Attempt<seq<string>>>, translate: string -> Attempt<string>)
    requires translate(chunk).Returned?
    requires ChunkLoopResult(rest, tail, translate)
    ensures ChunkLoopResult(
      Traced(match rest.value
             case Raised => Raised
             case Returned(ts) => Returned([translate(chunk).value] + ts),
             [chunk] + rest.requests),
      [chunk] + tail, translate)
  {
    AllReturnCons(chunk, tail, translate);
    assert ([chunk] + tail)[..1 + |rest.requests|] == [chunk] + tail[..|rest.requests|];
    if rest.value.Returned? {
      TranslationsCons(chunk, tail, translate);
    } else {
      var reqs := [chunk] + rest.requests;
      assert reqs[..|reqs| - 1] == [chunk] + rest.requests[..|rest.requests| - 1];
      AllReturnCons(chunk, rest.requests[..|rest.requests| - 1], translate);
    }
  }

  /** The sentence loop calls the service once per chunk, in order, until one
      raises; it succeeds exactly when no chunk's call raises, and then yields
      the chunks' translations in order. */
  lemma {:induction false} TranslatePiecesSpec(pieces: seq<string>, translate: string -> Attempt<string>)
    ensures ChunkLoopResult(TranslatePieces(pieces, translate), Sentences(pieces), translate)
  {
    if pieces == [] {
    } else if IsBlank(pieces[0]) {
      TranslatePiecesSpec(pieces[1..], translate);
    } else {
      var chunk := Strip(pieces[0]);
      assert Sentences(pieces) == [chunk] + Sentences(pieces[1..]);
      match translate(chunk)
      case Raised =>
        AllReturnCons(chunk, Sentences(pieces[1..]), translate);
        assert [chunk][..0] == [];
      case Returned(t) =>
        TranslatePiecesSpec(pieces[1..], translate);
        ChunkLoopStep(chunk, Sentences(pieces[1..]), TranslatePieces(pieces[1..], translate), translate);
    }
  }

  /** `_translate_text(text)` with `translate` standing for `GoogleTranslator.translate`. */
  function TranslateText(text: string, translate: string -> Attempt<string>): (r: Traced<string>)
    ensures |text| <= ChunkLimit ==> r.requests == [text]
    ensures |text| > ChunkLimit ==>
              && |r.requests| <= |Sentences(Split(text, SentenceSeparator))|
              && r.requests == Sentences(Split(text, SentenceSeparator))[..|r.requests|]
    ensures (exists k :: 0 <= k < |r.requests| && translate(r.requests[k]).Raised?) ==> r.value == text
  {
    if |text| > ChunkLimit then
      var t := TranslatePieces(Split(text, SentenceSeparator), translate);
      TranslatePiecesSpec(Split(text, SentenceSeparator), translate);
      match t.value
      case Raised => Traced(text, t.requests)
      case Returned(ts) => Traced(Join(ts, SentenceSeparator), t.requests)
    else
      match translate(text)
      case Raised => Traced(text, [text])
      case Returned(t) => Traced(t, [text])
  }

  /** Text of at most `ChunkLimit` characters is sent whole, in a single call,
      and its translation is the service's answer, or the text itself if the call raised. */
  lemma TranslateShortText(text: string, translate: string -> Attempt<string>)
    requires |text| <= ChunkLimit
    ensures TranslateText(text, translate).requests == [text]
    ensures translate(text).Raised? ==> TranslateText(text, translate).value == text
    ensures translate(text).Returned? ==> TranslateText(text, translate).value == translate(text).value
  {
  }

  /** Long text is translated chunk by chunk: when no call raises, there is one
      call per stripped non-blank piece, in order, and the result is the
      translations joined with the separator; when one raises, the text comes back unchanged. */
  lemma TranslateLongText(text: string, translate: string -> Attempt<string>)
    requires |text| > ChunkLimit
    ensures var chunks := Sentences(Split(text, SentenceSeparator));
      var r := TranslateText(text, translate);
      && (AllReturn(chunks, translate) ==>
            r.requests == chunks && r.value == Join(Translations(chunks, translate), SentenceSeparator))
      && (!AllReturn(chunks, translate) ==>
            && r.value == text
            && r.requests == chunks[..|r.requests|]
            && StopsAtFirstRaise(r.requests, translate))
  {
    TranslatePiecesSpec(Split(text, SentenceSeparator), translate);
  }

  /** The texts `_translate_text` sends when no call raises: the whole text
      when it is short, its chunks otherwise. */
  function Chunks(text: string): seq<string> {
    if |text| <= ChunkLimit then [text] else Sentences(Split(text, SentenceSeparator))
  }

  /** When no call raises, the calls made are exactly the text's chunks. */
  lemma TranslateTextRequests(text: string, translate: string -> Attempt<string>)
    requires AllReturn(Chunks(text), translate)
    ensures TranslateText(text, translate).requests == Chunks(text)
  {
    if |text| > ChunkLimit {
      TranslateLongText(text, translate);
    }
  }

  /** A translation service that always raises. */
  function Unavailable(s: string): Attempt<string> {
    Raised
  }

  /** Long text is sent in at least one chunk unless every piece between separators is blank. */
  predicate HasChunks(text: string) {
    |text| <= ChunkLimit || Sentences(Split(text, SentenceSeparator)) != []
  }

  /** With a service that always raises, text that is sent at all comes back unchanged. */
  lemma UnavailableFallsBack(text: string)
    requires HasChunks(text)
    ensures TranslateText(text, Unavailable).value == text
  {
    if |text| > ChunkLimit {
      var chunks := Sentences(Split(text, SentenceSeparator));
      TranslateLongText(text, Unavailable);
      assert !Unavailable(chunks[0]).Returned?;
    }
  }

  /** Long text whose pieces are all blank is never sent and becomes the empty
      string, whatever the service does. */
  lemma ChunklessTextVanishes(text: string, translate: string -> Attempt<string>)
    requires !HasChunks(text)
    ensures TranslateText(text, translate) == Traced("", [])
  {
    TranslateLongText(text, translate);
  }

  /** A translation service that echoes its input. */
  function Echo(s: string): Attempt<string> {
    Returned(s)
  }

  /** Total length of the pieces, each counted with one separator after it. */
  function Weight(pieces: seq<string>): nat {
    if pieces == [] then 0 else |pieces[0]| + |SentenceSeparator| + Weight(pieces[1..])
  }

  /** A join is as long as its pieces and the separators between them. */
  lemma {:induction false} JoinLength(pieces: seq<string>)
    requires |pieces| > 0
    ensures |Join(pieces, SentenceSeparator)| + |SentenceSeparator| == Weight(pieces)
  {
    if |pieces| > 1 {
      JoinLength(pieces[1..]);
    }
  }

  /** Stripping a padded piece makes it strictly shorter. */
  lemma StripShortensPadded(s: string)
    requires IsPadded(s)
    ensures |Strip(s)| < |s|
  {
    StripFixedIffUnpadded(s);
    var r := Strip(s);
    var k :| StrippedAt(s, r, k);
  }

  /** Sentences keeps the pieces as they are when none is blank or padded. */
  lemma {:induction false} SentencesKeepClean(pieces: seq<string>)
    requires forall k :: 0 <= k < |pieces| ==> !IsBlank(pieces[k]) && !IsPadded(pieces[k])
    ensures Sentences(pieces) == pieces
  {
    if pieces != [] {
      var p, rest := pieces[0], pieces[1..];
      assert pieces == [p] + rest;
      assert !IsBlank(p) && !IsPadded(p);
      assert forall k :: 0 <= k < |rest| ==> rest[k] == pieces[k + 1];
      SentencesKeepClean(rest);
      SentencesCons(p, rest);
      SentencesOne(p);
      StripFixedIffUnpadded(p);
    }
  }

  /** The chunk of one piece in front of others weighs at most the piece, and
      less when the piece is blank or padded. */
  lemma SentencesWeightCons(p: string, rest: seq<string>)
    ensures Weight(Sentences([p] + rest)) <= |p| + |SentenceSeparator| + Weight(Sentences(rest))
    ensures IsBlank(p) || IsPadded(p) ==>
              Weight(Sentences([p] + rest)) < |p| + |SentenceSeparator| + Weight(Sentences(rest))
  {
    var ps := [p] + rest;
    assert ps[0] == p && ps[1..] == rest;
    if IsBlank(p) {
      assert Sentences(ps) == Sentences(rest);
    } else {
      var c := Strip(p);
      var cs := [c] + Sentences(rest);
      assert Sentences(ps) == cs;
      assert cs[0] == c && cs[1..] == Sentences(rest);
      if IsPadded(p) {
        StripShortensPadded(p);
      }
    }
  }

  /** A blank or padded piece is either the first one or among the rest. */
  lemma UncleanCons(pieces: seq<string>)
    requires pieces != []
    ensures (exists k :: 0 <= k < |pieces| && (IsBlank(pieces[k]) || IsPadded(pieces[k]))) ==>
              || IsBlank(pieces[0]) || IsPadded(pieces[0])
              || exists k :: 0 <= k < |pieces[1..]| && (IsBlank(pieces[1..][k]) || IsPadded(pieces[1..][k]))
  {
    if exists k :: 0 <= k < |pieces| && (IsBlank(pieces[k]) || IsPadded(pieces[k])) {
      var k :| 0 <= k < |pieces| && (IsBlank(pieces[k]) || IsPadded(pieces[k]));
      if k > 0 {
        assert pieces[1..][k - 1] == pieces[k];
      }
    }
  }

  /** Dropping blank pieces and stripping the rest never adds weight, and loses
      some as soon as one piece is blank or padded. */
  lemma {:induction false} SentencesWeight(pieces: seq<string>)
    ensures Weight(Sentences(pieces)) <= Weight(pieces)
    ensures (exists k :: 0 <= k < |pieces| && (IsBlank(pieces[k]) || IsPadded(pieces[k])))
            ==> Weight(Sentences(pieces)) < Weight(pieces)
  {
    if pieces != [] {
      var p, rest := pieces[0], pieces[1..];
      assert pieces == [p] + rest;
      SentencesWeight(rest);
      SentencesWeightCons(p, rest);
      UncleanCons(pieces);
    }
  }

  /** With an echoing service, short text comes back unchanged, but long text
      comes back unchanged only when no piece between separators is blank or
      starts or ends with whitespace. */
  lemma EchoRoundTrip(text: string)
    ensures |text| <= ChunkLimit ==> TranslateText(text, Echo).value == text
    ensures |text| > ChunkLimit ==>
      (TranslateText(text, Echo).value == text <==>
       forall k :: 0 <= k < |Split(text, SentenceSeparator)| ==>
         !IsBlank(Split(text, SentenceSeparator)[k]) && !IsPadded(Split(text, SentenceSeparator)[k]))
  {
    if |text| > ChunkLimit {
      var pieces := Split(text, SentenceSeparator);
      var chunks := Sentences(pieces);
      assert AllReturn(chunks, Echo);
      TranslateLongText(text, Echo);
      assert Translations(chunks, Echo) == chunks;
      var r := TranslateText(text, Echo).value;
      assert r == Join(chunks, SentenceSeparator);
      SentencesWeight(pieces);
      if forall k :: 0 <= k < |pieces| ==> !IsBlank(pieces[k]) && !IsPadded(pieces[k]) {
        SentencesKeepClean(pieces);
      }
      JoinSplit(text, SentenceSeparator);
      JoinLength(pieces);
      if exists k :: 0 <= k < |pieces| && (IsBlank(pieces[k]) || IsPadded(pieces[k])) {
        if chunks != [] {
          JoinLength(chunks);
        }
        assert |r| < |text|;
      }
    }
  }
}
