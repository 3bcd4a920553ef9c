/** `GoogleTranslationService`: the options of each request and the
    splitting of a batch into requests of at most 128 texts. The Cloud
    Translation client `Translate.translate(texts, options)` is a parameter. */
module Google {
  import opened Wrappers
  import opened Text
  import opened Locales
  import opened TranslationServices

  /** The `Translate.TranslateOption`s the service sets. */
  datatype TranslateOption =
    | SourceLanguage(code: string)
    | TargetLanguage(code: string)
    | FormatOption(name: string)
    | ModelOption(name: string)

  /** `Translate.translate(texts, *options)`: a result per text, or an error. */
  type Client = (seq<string>, seq<TranslateOption>) -> Result<seq<string>, string>

  /** The Cloud Translation API accepts at most this many texts per request. */
  const ChunkSize: nat := 128

  function FormatName(f: TextFormat): (r: string)
    ensures f == PlainText <==> r == "text"
    ensures f == Html <==> r == "html"
  {
    match f
    case PlainText => "text"
    case Html => "html"
  }

  /** The options of every request of a batch: source, target and format,
      then the model when one is configured and not blank. */
  function CallOptions(c: BatchCall, model: Option<string>): (opts: seq<TranslateOption>)
    ensures |opts| >= 3
    ensures opts[0] == SourceLanguage(c.source) && opts[1] == TargetLanguage(c.target)
    ensures opts[2] == FormatOption(FormatName(c.format))
    ensures |opts| == 4 <==> model.Some? && !IsBlank(model.value)
    ensures |opts| == 4 ==> opts[3] == ModelOption(model.value)
    ensures |opts| <= 4
  {
    var base := [SourceLanguage(c.source), TargetLanguage(c.target), FormatOption(FormatName(c.format))];
    if model.Some? && !IsBlank(model.value) then base + [ModelOption(model.value)] else base
  }

  /** All chunks joined back together, in order. */
  function Flatten(chunks: seq<seq<string>>): seq<string> {
    if chunks == [] then [] else Flatten(chunks[..|chunks| - 1]) + chunks[|chunks| - 1]
  }

  lemma {:induction false} FlattenCons(a: seq<string>, rest: seq<seq<string>>)
    ensures Flatten([a] + rest) == a + Flatten(rest)
    decreases |rest|
  {
    if rest != [] {
      var init := rest[..|rest| - 1];
      assert ([a] + rest)[..|rest|] == [a] + init;
      FlattenCons(a, init);
    }
  }

  /** `texts.chunked(n)`: consecutive pieces of `n` texts, the last one
      possibly shorter, none empty. */
  function Chunked(texts: seq<string>, n: nat): (r: seq<seq<string>>)
    requires n > 0
    ensures forall i | 0 <= i < |r| :: 0 < |r[i]| <= n
    ensures forall i | 0 <= i < |r| - 1 :: |r[i]| == n
    ensures Flatten(r) == texts
    decreases |texts|
  {
    if texts == [] then []
    else if |texts| <= n then
      FlattenCons(texts, []);
      [texts]
    else
      var rest := Chunked(texts[n..], n);
      FlattenCons(texts[..n], rest);
      assert texts == texts[..n] + texts[n..];
      [texts[..n]] + rest
  }

  /** The requests made one chunk after another, each with the same options;
      the answers are appended in order, and the first error ends the batch. */
  function RunChunks(client: Client, chunks: seq<seq<string>>, opts: seq<TranslateOption>): Outcome {
    if chunks == [] then Success([])
    else
      match RunChunks(client, chunks[..|chunks| - 1], opts)
      case Failure(e) => Failure(e)
      case Success(acc) =>
        match client(chunks[|chunks| - 1], opts)
        case Failure(e) => Failure(e)
        case Success(t) => Success(acc + t)
  }

  /** The backend's `translateBatch`. */
  function Batch(client: Client, model: Option<string>, c: BatchCall): Outcome {
    if c.texts == [] then Success([])
    else RunChunks(client, Chunked(c.texts, ChunkSize), CallOptions(c, model))
  }

  /** `translateBatch(texts, textFormat, source, target)`: the options are
      assembled, an empty batch returns at once, and the chunks are sent one
      by one, their results collected in order. */
  method TranslateBatch(client: Client, model: Option<string>, c: BatchCall) returns (r: Outcome)
    ensures r == Batch(client, model, c)
  {
    var options := [SourceLanguage(c.source), TargetLanguage(c.target), FormatOption(FormatName(c.format))];
    if model.Some? && !IsBlank(model.value) {
      options := options + [ModelOption(model.value)];
    }
    if c.texts == [] {
      return Success([]);
    }
    var chunks := Chunked(c.texts, ChunkSize);
    var results: seq<string> := [];
    for i := 0 to |chunks|
      invariant RunChunks(client, chunks[..i], options) == Success(results)
    {
      assert chunks[..i + 1][..i] == chunks[..i];
      var translated := client(chunks[i], options);
      match translated {
        case Failure(e) =>
          RunChunksFailed(client, chunks, i + 1, options);
          return Failure(e);
        case Success(t) =>
          results := results + t;
      }
    }
    assert chunks[..|chunks|] == chunks;
    r := Success(results);
  }

  /** Once a request has failed, the batch fails with that error. */
  lemma {:induction false} RunChunksFailed(client: Client, chunks: seq<seq<string>>, i: nat, opts: seq<TranslateOption>)
    requires i <= |chunks| && RunChunks(client, chunks[..i], opts).Failure?
    ensures RunChunks(client, chunks, opts) == RunChunks(client, chunks[..i], opts)
    decreases |chunks|
  {
    if i < |chunks| {
      var init := chunks[..|chunks| - 1];
      assert init[..i] == chunks[..i];
      RunChunksFailed(client, init, i, opts);
    } else {
      assert chunks[..i] == chunks;
    }
  }

  /** `GoogleTranslationService(service, model)`; it keeps the default hook. */
  function NewService(client: Client, model: Option<string>, isoCode: Locale -> string): Service {
    WithDefaultHook((c: BatchCall) => Batch(client, model, c), isoCode)
  }

  /** Each text translated on its own by `f`. */
  function Each(f: string -> string, texts: seq<string>): (r: seq<string>)
    ensures |r| == |texts|
    ensures forall i | 0 <= i < |texts| :: r[i] == f(texts[i])
  {
    if texts == [] then [] else [f(texts[0])] + Each(f, texts[1..])
  }

  lemma {:induction false} EachAppend(f: string -> string, a: seq<string>, b: seq<string>)
    ensures Each(f, a + b) == Each(f, a) + Each(f, b)
  {
    assert |Each(f, a + b)| == |Each(f, a) + Each(f, b)|;
    forall i | 0 <= i < |a + b| ensures Each(f, a + b)[i] == (Each(f, a) + Each(f, b))[i] {
    }
  }

  /** Chunking is invisible to the caller: when the client translates each
      text of a request on its own, the batch is every text translated, in
      input order. */
  lemma {:induction false} RunChunksInOrder(client: Client, f: string -> string, chunks: seq<seq<string>>, opts: seq<TranslateOption>)
    requires forall ts :: client(ts, opts) == Success(Each(f, ts))
    ensures RunChunks(client, chunks, opts) == Success(Each(f, Flatten(chunks)))
    decreases |chunks|
  {
    if chunks != [] {
      var init := chunks[..|chunks| - 1];
      RunChunksInOrder(client, f, init, opts);
      EachAppend(f, Flatten(init), chunks[|chunks| - 1]);
    }
  }

  /** Every text of a batch comes back translated, in order, however many
      requests it takes; an empty batch is answered without any. */
  lemma BatchInOrder(client: Client, f: string -> string, model: Option<string>, c: BatchCall)
    requires forall ts :: client(ts, CallOptions(c, model)) == Success(Each(f, ts))
    ensures Batch(client, model, c) == Success(Each(f, c.texts))
  {
    if c.texts != [] {
      RunChunksInOrder(client, f, Chunked(c.texts, ChunkSize), CallOptions(c, model));
    }
  }

  /** When the client answers every request with one text per text, a
      successful batch has one text per input text. */
  lemma {:induction false} RunChunksLength(client: Client, chunks: seq<seq<string>>, opts: seq<TranslateOption>)
    requires forall ts | client(ts, opts).Success? :: |client(ts, opts).value| == |ts|
    ensures RunChunks(client, chunks, opts).Success? ==> |RunChunks(client, chunks, opts).value| == |Flatten(chunks)|
    decreases |chunks|
  {
    if chunks != [] {
      RunChunksLength(client, chunks[..|chunks| - 1], opts);
    }
  }
}
