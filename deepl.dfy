/**
 * The DeepL client: key-tier probing, the lazily fetched character quota,
 * language-code normalisation with a per-input memo, the choice of the best
 * client and the request that translates one text. The DeepL service itself
 * is a `Server` value whose answers may depend on the key and on every
 * request the client has sent before.
 */
module Deepl {
  import opened Wrappers
  import opened Text
  import opened ClientBase
  import Placeholder

  const SupportedSourceLanguages: seq<string> :=
    ["AR", "BG", "CS", "DA", "DE", "EL", "EN", "ES", "ET", "FI", "FR", "HU", "ID", "IT", "JA",
     "KO", "LT", "LV", "NB", "NL", "PL", "PT", "RO", "RU", "SK", "SL", "SV", "TR", "UK", "ZH"]

  const SupportedTargetLanguages: seq<string> :=
    ["AR", "BG", "CS", "DA", "DE", "EL", "EN", "EN-GB", "EN-US", "ES", "ET", "FI", "FR", "HU",
     "ID", "IT", "JA", "KO", "LT", "LV", "NB", "NL", "PL", "PT", "PT-BR", "PT-PT", "RO", "RU",
     "SK", "SL", "SV", "TR", "UK", "ZH"]

  /** Free keys are tried before premium ones. */
  const ProbeOrder: seq<bool> := [true, false]

  // ---------------------------------------------------------------------------
  // Language codes
  // ---------------------------------------------------------------------------

  /** `language.upper().replace("_", "-")`. */
  function Formatted(language: string): string {
    ReplaceChar(Upper(language), '_', '-')
  }

  /** `code.split("-")[0]`: the primary subtag. */
  function PrimarySubtag(code: string): string {
    Split(code, "-")[0]
  }

  /**
   * `__format_source_language_for_api` and `__format_target_language_for_api`:
   * the formatted code if it is supported, else its primary subtag if that is
   * supported, else `UnsupportedLanguageError`.
   */
  function NormalizeLanguage(language: string, supported: seq<string>): Result<string, ClientError> {
    var formatted := Formatted(language);
    if formatted in supported then Ok(formatted)
    else
      var primary := PrimarySubtag(formatted);
      if primary in supported then Ok(primary)
      else Err(UnsupportedLanguageError(language))
  }

  /**
   * What normalisation yields: a supported prefix of the formatted code,
   * the formatted code itself whenever it is supported, else its primary
   * subtag; it fails, naming the input, exactly when neither is supported.
   */
  lemma NormalizeLanguageCases(language: string, supported: seq<string>)
    ensures var r := NormalizeLanguage(language, supported);
      (r.Ok? ==> r.value in supported && r.value <= Formatted(language)) &&
      (r.Ok? && r.value != Formatted(language) ==> r.value == PrimarySubtag(Formatted(language))) &&
      (Formatted(language) in supported ==> r == Ok(Formatted(language))) &&
      (r.Err? <==> Formatted(language) !in supported && PrimarySubtag(Formatted(language)) !in supported) &&
      (r.Err? ==> r.error == UnsupportedLanguageError(language))
  {
    PrimarySubtagPrefix(Formatted(language));
  }

  /** The primary subtag is a prefix of the code and holds no hyphen. */
  lemma PrimarySubtagPrefix(code: string)
    ensures PrimarySubtag(code) <= code
    ensures !Occurs(PrimarySubtag(code), "-")
  {
    var parts := Split(code, "-");
    SplitJoinRoundTrip(code, "-");
    SplitPartsFree(code, "-");
    JoinStartsWithFirst(parts, "-");
  }

  lemma JoinStartsWithFirst(parts: seq<string>, sep: string)
    requires |parts| >= 1
    ensures parts[0] <= Join(parts, sep)
  {
    if |parts| > 1 {
      assert Join(parts, sep) == parts[0] + (sep + Join(parts[1..], sep));
    }
  }

  /** Text `Formatted` leaves as it is: no lower-case letter and no underscore. */
  predicate FormattedFixed(code: string) {
    forall n :: 0 <= n < |code| ==> code[n] != '_' && UpperChar(code[n]) == code[n]
  }

  lemma FormattedIsFixed(language: string)
    ensures FormattedFixed(Formatted(language))
  {
  }

  lemma FixedIsFormatted(code: string)
    requires FormattedFixed(code)
    ensures Formatted(code) == code
  {
  }

  /** A normalised code normalises to itself. */
  lemma NormalizeIdempotent(language: string, supported: seq<string>)
    requires NormalizeLanguage(language, supported).Ok?
    ensures var code := NormalizeLanguage(language, supported).value;
      NormalizeLanguage(code, supported) == Ok(code)
  {
    var code := NormalizeLanguage(language, supported).value;
    var formatted := Formatted(language);
    NormalizeLanguageCases(language, supported);
    FormattedIsFixed(language);
    assert code <= formatted;
    assert forall n :: 0 <= n < |code| ==> code[n] == formatted[n];
    FixedIsFormatted(code);
  }

  /** Normalisation ignores letter case and the choice of `_` or `-`, apart from the name in the error. */
  lemma NormalizeIgnoresCase(language: string, supported: seq<string>)
    ensures Formatted(Upper(language)) == Formatted(language)
    ensures Formatted(ReplaceChar(language, '_', '-')) == Formatted(language)
    ensures NormalizeLanguage(Upper(language), supported).Ok? <==> NormalizeLanguage(language, supported).Ok?
    ensures NormalizeLanguage(Upper(language), supported).Ok? ==>
      NormalizeLanguage(Upper(language), supported) == NormalizeLanguage(language, supported)
  {
    assert Formatted(Upper(language)) == Formatted(language);
    assert Formatted(ReplaceChar(language, '_', '-')) == Formatted(language);
  }

  /** A target variant with an underscore is found as written with a hyphen. */
  lemma NormalizeTargetExample()
    ensures NormalizeLanguage("pt_br", SupportedTargetLanguages) == Ok("PT-BR")
  {
    assert Formatted("pt_br") == "PT-BR";
  }

  /** A regional source code falls back to its primary subtag. */
  lemma NormalizeSourceExample()
    ensures NormalizeLanguage("en-us", SupportedSourceLanguages) == Ok("EN")
  {
    assert Formatted("en-us") == "EN-US";
    assert SupportedSourceLanguages[6] == "EN";
    assert forall n :: 0 <= n < |SupportedSourceLanguages| ==> |SupportedSourceLanguages[n]| == 2;
    assert "EN-US" !in SupportedSourceLanguages;
    assert Split("EN-US", "-")[0] == "EN";
  }

  /** A language memo after a lookup: a success is remembered, a failure is not. */
  function Memoised(memo: map<string, string>, language: string, codes: seq<string>): map<string, string> {
    var n := NormalizeLanguage(language, codes);
    if n.Ok? then memo[language := n.value] else memo
  }

  // ---------------------------------------------------------------------------
  // Responses
  // ---------------------------------------------------------------------------

  /** `__handle_json_response`: 403 is a bad key, any other status but 200 a generic client error. */
  function HandleResponse(status: int, body: string): Result<(), ClientError> {
    if status == 403 then Err(InvalidApiKeyError)
    else if status != 200 then Err(GenericError("Client exception: " + body))
    else Ok(())
  }

  /** Only a 200 passes; a 403 and only a 403 is a bad key; the rest carry the body. */
  lemma HandleResponseCases(status: int, body: string)
    ensures var r := HandleResponse(status, body);
      (r.Ok? <==> status == 200) &&
      (r == Err(InvalidApiKeyError) <==> status == 403) &&
      (r.Err? && status != 403 ==> r.error == GenericError("Client exception: " + body))
  {
  }

  /** The parts of a translate request that vary: the protected text and the two normalised codes. */
  datatype TranslateBody = TranslateBody(text: string, sourceLanguage: string, targetLanguage: string)

  datatype Request =
    | UsageRequest(free: bool)
    | TranslateRequest(free: bool, body: TranslateBody)

  datatype UsageResponse = UsageResponse(status: int, body: string, characterCount: int, characterLimit: int)

  datatype TranslateResponse = TranslateResponse(status: int, body: string, translation: string)

  /** The DeepL service, answering a key's request given everything that key's client sent before. */
  datatype Server = Server(
    usage: (string, seq<Request>, bool) -> UsageResponse,
    translate: (string, seq<Request>, Request) -> TranslateResponse)

  /** `__get_usage` once the response is in: the characters left, `limit - count`. */
  function UsageOutcome(response: UsageResponse): Result<int, ClientError> {
    var checked := HandleResponse(response.status, response.body);
    if checked.Err? then Err(checked.error)
    else Ok(response.characterLimit - response.characterCount)
  }

  /**
   * A usage response succeeds exactly on a 200, with `limit - count` left;
   * otherwise it fails as `__handle_json_response` says, with a bad key or
   * a generic client error.
   */
  lemma UsageOutcomeCases(response: UsageResponse)
    ensures var r := UsageOutcome(response);
      (r.Ok? <==> response.status == 200) &&
      (r.Ok? ==> r.value + response.characterCount == response.characterLimit) &&
      (r.Err? ==> Err(r.error) == HandleResponse(response.status, response.body)) &&
      (r.Err? ==> r.error.InvalidApiKeyError? || r.error.GenericError?)
  {
  }

  // ---------------------------------------------------------------------------
  // Key-tier probing
  // ---------------------------------------------------------------------------

  /** What probing the tiers did: the tier found, or the error, and the usage requests sent. */
  datatype Probe = Probe(outcome: Result<bool, ClientError>, sent: seq<Request>)

  /**
   * `__detect_api_key_type`'s loop from the `i`-th tier on: ping each tier
   * in turn; the first success is the key's tier, an `InvalidApiKeyError`
   * moves on to the next tier, any other error stops the probing, and
   * running out of tiers is an `InvalidApiKeyError`.
   */
  function ProbeFrom(server: Server, apiKey: string, tiers: seq<bool>, i: nat, history: seq<Request>): (p: Probe)
    requires i <= |tiers|
    ensures |p.sent| <= |tiers| - i
    ensures p.outcome.Err? ==> p.outcome.error.InvalidApiKeyError? || p.outcome.error.GenericError?
    decreases |tiers| - i
  {
    if i == |tiers| then Probe(Err(InvalidApiKeyError), [])
    else
      var answer := UsageOutcome(server.usage(apiKey, history, tiers[i]));
      if answer.Ok? then Probe(Ok(tiers[i]), [UsageRequest(tiers[i])])
      else if answer.error != InvalidApiKeyError then Probe(Err(answer.error), [UsageRequest(tiers[i])])
      else
        var rest := ProbeFrom(server, apiKey, tiers, i + 1, history + [UsageRequest(tiers[i])]);
        Probe(rest.outcome, [UsageRequest(tiers[i])] + rest.sent)
  }

  /** One step of the probing: the answer for the `i`-th tier decides whether to go on. */
  lemma ProbeStep(server: Server, apiKey: string, tiers: seq<bool>, i: nat, history: seq<Request>)
    requires i < |tiers|
    ensures var answer := Ping(server, apiKey, history, tiers[i]);
      var p := ProbeFrom(server, apiKey, tiers, i, history);
      (answer.Ok? ==> p == Probe(Ok(tiers[i]), [UsageRequest(tiers[i])])) &&
      (answer.Err? && answer.error != InvalidApiKeyError ==> p == Probe(Err(answer.error), [UsageRequest(tiers[i])])) &&
      (answer == Err(InvalidApiKeyError) ==>
        var rest := ProbeFrom(server, apiKey, tiers, i + 1, history + [UsageRequest(tiers[i])]);
        p.outcome == rest.outcome && p.sent == [UsageRequest(tiers[i])] + rest.sent)
  {
  }

  /**
   * Halfway through the probe: `sent` went out after `history`, and the probe
   * from the `i`-th tier on, after both, completes it to `whole`.
   */
  ghost predicate ProbeSoFar(server: Server, apiKey: string, tiers: seq<bool>, i: nat,
                             history: seq<Request>, sent: seq<Request>, whole: Probe)
  {
    i <= |tiers| &&
    var rest := ProbeFrom(server, apiKey, tiers, i, history + sent);
    whole.outcome == rest.outcome && whole.sent == sent + rest.sent
  }

  /** One ping of the probe: it either ends the probe or moves it on to the next tier. */
  lemma ProbeAdvance(server: Server, apiKey: string, tiers: seq<bool>, i: nat,
                     history: seq<Request>, sent: seq<Request>, whole: Probe)
    requires i < |tiers| && ProbeSoFar(server, apiKey, tiers, i, history, sent, whole)
    ensures var answer := Ping(server, apiKey, history + sent, tiers[i]);
      var sent' := sent + [UsageRequest(tiers[i])];
      (answer.Ok? ==> whole == Probe(Ok(tiers[i]), sent')) &&
      (answer.Err? && answer.error != InvalidApiKeyError ==> whole == Probe(Err(answer.error), sent')) &&
      (answer == Err(InvalidApiKeyError) ==> ProbeSoFar(server, apiKey, tiers, i + 1, history, sent', whole))
  {
    var u := UsageRequest(tiers[i]);
    ProbeStep(server, apiKey, tiers, i, history + sent);
    assert history + sent + [u] == history + (sent + [u]);
    var rest := ProbeFrom(server, apiKey, tiers, i + 1, history + sent + [u]);
    assert sent + ([u] + rest.sent) == (sent + [u]) + rest.sent;
  }

  /** The probe sends usage requests only. */
  lemma {:induction false} ProbeOnlyUsage(server: Server, apiKey: string, tiers: seq<bool>, i: nat, history: seq<Request>)
    requires i <= |tiers|
    ensures OnlyUsage(history, history + ProbeFrom(server, apiKey, tiers, i, history).sent)
    decreases |tiers| - i
  {
    if i < |tiers| {
      var u := UsageRequest(tiers[i]);
      ProbeOnlyUsage(server, apiKey, tiers, i + 1, history + [u]);
      var rest := ProbeFrom(server, apiKey, tiers, i + 1, history + [u]);
      assert history + ([u] + rest.sent) == history + [u] + rest.sent;
    }
  }

  /** Probing all the tiers, starting after `history`. */
  function ProbeTiers(server: Server, apiKey: string, tiers: seq<bool>, history: seq<Request>): Probe {
    ProbeFrom(server, apiKey, tiers, 0, history)
  }

  /** The answer to the usage request for `tier`, sent after `history`. */
  function Ping(server: Server, apiKey: string, history: seq<Request>, tier: bool): Result<int, ClientError> {
    UsageOutcome(server.usage(apiKey, history, tier))
  }

  /**
   * The whole of the source's probing, case by case: the free tier first;
   * the premium tier only after an `InvalidApiKeyError`; the premium
   * tier's answer decides when it is asked.
   */
  lemma ProbeOrderCases(server: Server, apiKey: string, history: seq<Request>)
    ensures var p := ProbeTiers(server, apiKey, ProbeOrder, history);
      var free := Ping(server, apiKey, history, true);
      var premium := Ping(server, apiKey, history + [UsageRequest(true)], false);
      (free.Ok? ==> p == Probe(Ok(true), [UsageRequest(true)])) &&
      (free.Err? && free.error != InvalidApiKeyError ==> p == Probe(Err(free.error), [UsageRequest(true)])) &&
      (free == Err(InvalidApiKeyError) && premium.Ok? ==>
        p == Probe(Ok(false), [UsageRequest(true), UsageRequest(false)])) &&
      (free == Err(InvalidApiKeyError) && premium.Err? ==>
        p == Probe(Err(premium.error), [UsageRequest(true), UsageRequest(false)]))
  {
  }

  /** A key both tiers refuse is reported as an invalid key. */
  lemma ProbeBothRefused(server: Server, apiKey: string, history: seq<Request>)
    requires Ping(server, apiKey, history, true) == Err(InvalidApiKeyError)
    requires Ping(server, apiKey, history + [UsageRequest(true)], false) == Err(InvalidApiKeyError)
    ensures ProbeTiers(server, apiKey, ProbeOrder, history).outcome == Err(InvalidApiKeyError)
  {
    ProbeOrderCases(server, apiKey, history);
  }

  // ---------------------------------------------------------------------------
  // Choosing a client
  // ---------------------------------------------------------------------------

  /** `filter(lambda c: c.usage() > 0, ...)` on the quotas: the indices of positive quotas, in order. */
  function Positives(quotas: seq<int>): (r: seq<nat>)
    ensures forall n :: 0 <= n < |r| ==> r[n] < |quotas| && quotas[r[n]] > 0
    decreases |quotas|
  {
    if quotas == [] then []
    else
      var init := Positives(quotas[..|quotas| - 1]);
      if quotas[|quotas| - 1] > 0 then init + [|quotas| - 1] else init
  }

  /** Every positive quota is a candidate, and the candidates are in increasing order. */
  lemma {:induction false} PositivesComplete(quotas: seq<int>)
    ensures forall i :: 0 <= i < |quotas| && quotas[i] > 0 ==> i in Positives(quotas)
    ensures forall n, m :: 0 <= n < m < |Positives(quotas)| ==> Positives(quotas)[n] < Positives(quotas)[m]
    decreases |quotas|
  {
    if quotas != [] {
      var init := quotas[..|quotas| - 1];
      PositivesComplete(init);
      assert forall n :: 0 <= n < |Positives(init)| ==> Positives(init)[n] < |init|;
    }
  }

  /** `max(..., key=...)`: a later candidate replaces the best so far only when strictly larger. */
  function FirstMax(quotas: seq<int>, candidates: seq<nat>): (r: nat)
    requires candidates != [] && forall n :: 0 <= n < |candidates| ==> candidates[n] < |quotas|
    ensures r in candidates
    decreases |candidates|
  {
    if |candidates| == 1 then candidates[0]
    else
      var best := FirstMax(quotas, candidates[..|candidates| - 1]);
      var last := candidates[|candidates| - 1];
      if quotas[last] > quotas[best] then last else best
  }

  /** `best_client` on the quotas: the first of the largest positive quotas, if there is one. */
  function BestIndex(quotas: seq<int>): (r: Option<nat>)
    ensures r.Some? ==> r.value < |quotas|
  {
    var candidates := Positives(quotas);
    if candidates == [] then None else Some(FirstMax(quotas, candidates))
  }

  lemma {:induction false} FirstMaxIsFirstMaximum(quotas: seq<int>, candidates: seq<nat>)
    requires candidates != [] && forall n :: 0 <= n < |candidates| ==> candidates[n] < |quotas|
    requires forall n, m :: 0 <= n < m < |candidates| ==> candidates[n] < candidates[m]
    ensures var b := FirstMax(quotas, candidates);
      (forall n :: 0 <= n < |candidates| ==> quotas[candidates[n]] <= quotas[b]) &&
      (forall n :: 0 <= n < |candidates| && candidates[n] < b ==> quotas[candidates[n]] < quotas[b])
    decreases |candidates|
  {
    if |candidates| > 1 {
      FirstMaxIsFirstMaximum(quotas, candidates[..|candidates| - 1]);
    }
  }

  /**
   * The chosen client has a positive quota, at least as large as every
   * other, and no earlier client has as large a quota; there is none exactly
   * when no quota is positive.
   */
  lemma BestIndexCharacterised(quotas: seq<int>)
    ensures BestIndex(quotas).None? <==> forall i :: 0 <= i < |quotas| ==> quotas[i] <= 0
    ensures BestIndex(quotas).Some? ==>
      var b := BestIndex(quotas).value;
      quotas[b] > 0 &&
      (forall i :: 0 <= i < |quotas| ==> quotas[i] <= quotas[b]) &&
      (forall i :: 0 <= i < b ==> quotas[i] < quotas[b])
  {
    var candidates := Positives(quotas);
    PositivesComplete(quotas);
    if candidates != [] {
      FirstMaxIsFirstMaximum(quotas, candidates);
      var b := FirstMax(quotas, candidates);
      forall i | 0 <= i < |quotas| && quotas[i] > 0
        ensures quotas[i] <= quotas[b] && (i < b ==> quotas[i] < quotas[b])
      {
        var n :| 0 <= n < |candidates| && candidates[n] == i;
      }
    } else {
      forall i | 0 <= i < |quotas|
        ensures quotas[i] <= 0
      {
      }
    }
  }

  // ---------------------------------------------------------------------------
  // Placeholders
  // ---------------------------------------------------------------------------

  /**
   * The substitutions around a request: `protect` before sending and
   * `restore` on the answer. For the default pattern they are
   * `Placeholder.Protect` and `Placeholder.Restore`; for any other pattern
   * they are what the regular-expression engine does with it.
   */
  datatype Codec = Codec(protect: string -> string, restore: string -> string)

  /**
   * The client's substitutions: with the default pattern, the `%{X}` to
   * `<x>X</x>` pair, whose restore undoes its protect on every text without
   * tags of its own; with any other pattern, the given ones.
   */
  function CodecFor(pattern: string, custom: Codec): (r: Codec)
    ensures pattern == DefaultVariablePattern ==>
      forall text :: !Occurs(text, "<x>") && !Occurs(text, "</x>") ==> r.restore(r.protect(text)) == text
    ensures pattern != DefaultVariablePattern ==> r == custom
  {
    if pattern == DefaultVariablePattern then
      DefaultRoundTrip();
      Codec(Placeholder.Protect, Placeholder.Restore)
    else custom
  }

  lemma DefaultRoundTrip()
    ensures forall text :: !Occurs(text, "<x>") && !Occurs(text, "</x>") ==>
      Placeholder.Restore(Placeholder.Protect(text)) == text
  {
    forall text | !Occurs(text, "<x>") && !Occurs(text, "</x>")
      ensures Placeholder.Restore(Placeholder.Protect(text)) == text
    {
      Placeholder.RestoreProtect(text);
    }
  }

  /** The total length of the protected texts: what a request costs. */
  function ProtectedLength(codec: Codec, texts: seq<string>): (n: nat)
    ensures texts == [] ==> n == 0
    ensures |texts| == 1 ==> n == |codec.protect(texts[0])|
  {
    if texts == [] then 0 else |codec.protect(texts[0])| + ProtectedLength(codec, texts[1..])
  }

  // ---------------------------------------------------------------------------
  // Posting a request
  // ---------------------------------------------------------------------------

  /** `after` is `before` followed by usage requests only. */
  ghost predicate OnlyUsage(before: seq<Request>, after: seq<Request>) {
    before <= after && forall k :: |before| <= k < |after| ==> after[k].UsageRequest?
  }

  /** How many of `sent` are translate requests. */
  function TranslateRequests(sent: seq<Request>): nat
  {
    if sent == [] then 0
    else TranslateRequests(sent[..|sent| - 1]) + if sent[|sent| - 1].TranslateRequest? then 1 else 0
  }

  /** A log that grew by one translate request counts one more since `start`. */
  lemma TranslateRequestsStep(start: seq<Request>, before: seq<Request>, log: seq<Request>)
    requires start <= before <= log && TranslateRequests(log[|before|..]) == 1
    ensures TranslateRequests(log[|start|..]) == TranslateRequests(before[|start|..]) + 1
  {
    TranslateRequestsAppend(before[|start|..], log[|before|..]);
    assert log[|start|..] == before[|start|..] + log[|before|..];
  }

  /** A log that grew by usage requests only counts no translate request since `start`. */
  lemma TranslateRequestsNone(start: seq<Request>, log: seq<Request>)
    requires OnlyUsage(start, log)
    ensures TranslateRequests(log[|start|..]) == 0
  {
    TranslateRequestsUsage([], log[|start|..]);
    assert [] + log[|start|..] == log[|start|..];
  }

  /** The count over two logs joined is the sum of their counts. */
  lemma {:induction false} TranslateRequestsAppend(sent: seq<Request>, extra: seq<Request>)
    ensures TranslateRequests(sent + extra) == TranslateRequests(sent) + TranslateRequests(extra)
    decreases |extra|
  {
    if extra == [] {
      assert sent + extra == sent;
    } else {
      var rest := extra[..|extra| - 1];
      assert (sent + extra)[..|sent + extra| - 1] == sent + rest;
      assert (sent + extra)[|sent + extra| - 1] == extra[|extra| - 1];
      TranslateRequestsAppend(sent, rest);
    }
  }

  /** Usage requests add no translate request to the count. */
  lemma {:induction false} TranslateRequestsUsage(sent: seq<Request>, extra: seq<Request>)
    requires forall k :: 0 <= k < |extra| ==> extra[k].UsageRequest?
    ensures TranslateRequests(sent + extra) == TranslateRequests(sent)
    decreases |extra|
  {
    if extra != [] {
      var rest := extra[..|extra| - 1];
      assert (sent + extra)[..|sent + extra| - 1] == sent + rest;
      assert (sent + extra)[|sent + extra| - 1] == extra[|extra| - 1];
      assert forall k :: 0 <= k < |rest| ==> rest[k] == extra[k];
      TranslateRequestsUsage(sent, rest);
    } else {
      assert sent + extra == sent;
    }
  }

  /** What `usage()` did once the tier is known: the quota, and the requests sent for it. */
  datatype Fetched = Fetched(quota: Result<int, ClientError>, sent: seq<Request>)

  /** `usage()` once the tier is known: the cached quota, or one usage request for the tier. */
  function Fetch(server: Server, apiKey: string, history: seq<Request>, tier: bool, known: Option<int>): Fetched {
    if known.Some? then Fetched(Ok(known.value), [])
    else Fetched(Ping(server, apiKey, history, tier), [UsageRequest(tier)])
  }

  /**
   * What `validate_api_key` does from a client's state: nothing once the key
   * is validated, the probe of the tiers otherwise.
   */
  function Validation(server: Server, apiKey: string, tiers: seq<bool>, history: seq<Request>,
                      validated: bool, free: Option<bool>): Probe
    requires validated ==> free.Some?
  {
    if validated then Probe(Ok(free.value), []) else ProbeTiers(server, apiKey, tiers, history)
  }

  lemma ValidationOnlyUsage(server: Server, apiKey: string, tiers: seq<bool>, history: seq<Request>,
                            validated: bool, free: Option<bool>)
    requires validated ==> free.Some?
    ensures OnlyUsage(history, history + Validation(server, apiKey, tiers, history, validated, free).sent)
  {
    if !validated {
      ProbeOnlyUsage(server, apiKey, tiers, 0, history);
    }
  }

  /** Validation sends no translate request. */
  lemma ValidationSendsNoTranslation(server: Server, apiKey: string, tiers: seq<bool>, history: seq<Request>,
                                     validated: bool, free: Option<bool>)
    requires validated ==> free.Some?
    ensures TranslateRequests(Validation(server, apiKey, tiers, history, validated, free).sent) == 0
  {
    var sent := Validation(server, apiKey, tiers, history, validated, free).sent;
    ValidationOnlyUsage(server, apiKey, tiers, history, validated, free);
    forall k | 0 <= k < |sent|
      ensures sent[k].UsageRequest?
    {
      assert sent[k] == (history + sent)[|history| + k];
    }
    TranslateRequestsUsage([], sent);
    assert [] + sent == sent;
  }

  const NotEnoughCharacters: string := "The API key does not have enough characters remaining."

  /**
   * What the response to a translate request makes of it: the restored
   * translation after a 200, otherwise the error `__handle_json_response`
   * raises for the status.
   */
  function Reply(codec: Codec, response: TranslateResponse): Result<string, ClientError> {
    var checked := HandleResponse(response.status, response.body);
    if checked.Err? then Err(checked.error) else Ok(codec.restore(response.translation))
  }

  /** A reply succeeds exactly on a 200, with the restored translation; a 403 is a bad key. */
  lemma ReplyCases(codec: Codec, response: TranslateResponse)
    ensures var r := Reply(codec, response);
      (r.Ok? <==> response.status == 200) &&
      (r.Ok? ==> r.value == codec.restore(response.translation)) &&
      (r == Err(InvalidApiKeyError) <==> response.status == 403) &&
      (r.Err? && response.status != 403 ==> r.error == GenericError("Client exception: " + response.body))
  {
  }

  /** What posting one body did: the answer or the error, the requests sent, and the quota left. */
  datatype Posted = Posted(result: Result<string, ClientError>, sent: seq<Request>, remaining: Option<int>)

  /**
   * `__post_translate` for one body once the key's tier is known: take the
   * quota (cached, or fetched with one usage request), refuse a body longer
   * than the quota, send the body, check the status, charge the quota and
   * restore the answer. At most one translate request goes out, and last;
   * it is refused exactly when the quota is short; a success charges the
   * quota by exactly the body's length.
   */
  function Post(server: Server, apiKey: string, codec: Codec, history: seq<Request>, tier: bool,
                known: Option<int>, body: TranslateBody): Posted
  {
    var f := Fetch(server, apiKey, history, tier, known);
    if f.quota.Err? then Posted(Err(f.quota.error), f.sent, known)
    else if f.quota.value < |body.text| then Posted(Err(UsageError(NotEnoughCharacters)), f.sent, Some(f.quota.value))
    else
      var request := TranslateRequest(tier, body);
      var reply := Reply(codec, server.translate(apiKey, history + f.sent, request));
      assert (f.sent + [request])[..|f.sent|] == f.sent;
      Posted(reply, f.sent + [request], if reply.Ok? then Some(f.quota.value - |body.text|) else Some(f.quota.value))
  }

  /**
   * What `Post` promises: at most one translate request goes out, and
   * last; it is refused exactly when the quota is short; a success charges
   * the quota by exactly the body's length and is the restored answer.
   */
  lemma PostFacts(server: Server, apiKey: string, codec: Codec, history: seq<Request>, tier: bool,
                  known: Option<int>, body: TranslateBody)
    ensures var p := Post(server, apiKey, codec, history, tier, known, body);
      (known.Some? ==> p.sent == [] || p.sent == [TranslateRequest(tier, body)]) &&
      (known.None? ==> p.sent == [UsageRequest(tier)] || p.sent == [UsageRequest(tier), TranslateRequest(tier, body)])
    ensures var p := Post(server, apiKey, codec, history, tier, known, body);
      var q := Fetch(server, apiKey, history, tier, known).quota;
      (q.Err? ==> p.result == Err(q.error) && p.remaining == known) &&
      (q.Ok? ==> (p.result == Err(UsageError(NotEnoughCharacters)) <==> q.value < |body.text|)) &&
      (q.Ok? && p.result.Ok? ==> p.remaining == Some(q.value - |body.text|) && p.remaining.value >= 0) &&
      (q.Ok? && p.result.Err? ==> p.remaining == Some(q.value))
    ensures var p := Post(server, apiKey, codec, history, tier, known, body);
      p.result.Ok? ==>
        |p.sent| > 0 && p.sent[|p.sent| - 1] == TranslateRequest(tier, body) &&
        var response := server.translate(apiKey, history + p.sent[..|p.sent| - 1], p.sent[|p.sent| - 1]);
        response.status == 200 && p.result.value == codec.restore(response.translation)
  {
  }

  /**
   * `Post` with a cached quota: a body longer than the quota is refused with
   * nothing sent; otherwise the body alone goes out and the reply to it is
   * the result.
   */
  lemma PostCached(server: Server, apiKey: string, codec: Codec, history: seq<Request>, tier: bool,
                   quota: int, body: TranslateBody)
    ensures var p := Post(server, apiKey, codec, history, tier, Some(quota), body);
      (quota < |body.text| ==> p.result == Err(UsageError(NotEnoughCharacters)) && p.sent == []) &&
      (quota >= |body.text| ==>
        p.sent == [TranslateRequest(tier, body)] &&
        p.result == Reply(codec, server.translate(apiKey, history, TranslateRequest(tier, body))))
  {
    assert history + [] == history;
  }

  /** Posting a body fails only with a bad key, a client error for a status, or a short quota. */
  lemma PostErrors(server: Server, apiKey: string, codec: Codec, history: seq<Request>, tier: bool,
                   known: Option<int>, body: TranslateBody)
    ensures var p := Post(server, apiKey, codec, history, tier, known, body);
      p.result.Err? ==>
        p.result.error == InvalidApiKeyError || p.result.error.GenericError? ||
        p.result.error == UsageError(NotEnoughCharacters)
  {
    var f := Fetch(server, apiKey, history, tier, known);
    if known.None? {
      UsageOutcomeCases(server.usage(apiKey, history, tier));
    }
    if f.quota.Ok? && f.quota.value >= |body.text| {
      HandleResponseCases(server.translate(apiKey, history + f.sent, TranslateRequest(tier, body)).status,
                          server.translate(apiKey, history + f.sent, TranslateRequest(tier, body)).body);
    }
  }

  /**
   * A client's state after posting one body: the answer or the error, the
   * request log, whether the key is validated, its tier, and the cached quota.
   */
  datatype Posting = Posting(result: Result<string, ClientError>, log: seq<Request>, validated: bool,
                             free: Option<bool>, remaining: Option<int>)

  /**
   * Lines 184-191 of `__post_translate` from a state whose request log is
   * `start`, whose validation is `validated` and `free` and whose cached
   * quota is `known`: the validation `usage()` calls for, then `Post`.
   */
  function PostFrom(server: Server, apiKey: string, tiers: seq<bool>, codec: Codec, start: seq<Request>,
                    validated: bool, free: Option<bool>, known: Option<int>, body: TranslateBody): Posting
    requires validated ==> free.Some?
  {
    var v := Validation(server, apiKey, tiers, start, validated, free);
    if v.outcome.Err? then Posting(Err(v.outcome.error), start + v.sent, false, None, known)
    else
      var p := Post(server, apiKey, codec, start + v.sent, v.outcome.value, known, body);
      Posting(p.result, start + v.sent + p.sent, true, Some(v.outcome.value), p.remaining)
  }

  /** What the loop of `translate` did: the answers or the first error, the request log after, and the quota left. */
  datatype Translation = Translation(result: Result<seq<string>, ClientError>, log: seq<Request>, remaining: Option<int>)

  /** `t` with the answers `done` in front of its own. */
  function After(done: seq<string>, t: Translation): Translation {
    Translation(if t.result.Ok? then Ok(done + t.result.value) else t.result, t.log, t.remaining)
  }

  /** A sequence after `done`, split at its first element. */
  lemma SplitFirst<T>(done: seq<T>, s: seq<T>)
    requires s != []
    ensures done + s == done + [s[0]] + s[1..]
  {
    assert s == [s[0]] + s[1..];
  }

  /** One element between two sequences, grouped either way. */
  lemma JoinAfter<T>(a: seq<T>, x: T, b: seq<T>)
    ensures a + ([x] + b) == a + [x] + b
  {
  }

  lemma AfterNone(t: Translation)
    ensures After([], t) == t
  {
    if t.result.Ok? {
      assert [] + t.result.value == t.result.value;
    }
  }

  lemma AfterAfter(done: seq<string>, more: seq<string>, t: Translation)
    ensures After(done, After(more, t)) == After(done + more, t)
  {
    if t.result.Ok? {
      assert done + (more + t.result.value) == done + more + t.result.value;
    }
  }

  // ---------------------------------------------------------------------------
  // The client
  // ---------------------------------------------------------------------------

  class DeeplClient {
    const apiKey: string
    const variablePattern: string
    const replacementPattern: string
    const codec: Codec
    const server: Server
    /** The codes DeepL accepts as source and as target languages. */
    const sourceCodes: seq<string>
    const targetCodes: seq<string>
    /** The tiers to probe, in order. */
    const tiers: seq<bool>
    var isApiKeyValidated: bool
    var isApiKeyFree: Option<bool>
    var sourceLanguages: map<string, string>
    var targetLanguages: map<string, string>
    var remainingCharacters: Option<int>
    /** Every request sent to the service, oldest first. */
    var requests: seq<Request>

    /**
     * A validated key has a known tier, a fetched quota belongs to a
     * validated key, and each memoised language code is the normalisation
     * of its key.
     */
    ghost predicate Valid()
      reads this
    {
      (isApiKeyValidated <==> isApiKeyFree.Some?) &&
      (remainingCharacters.Some? ==> isApiKeyValidated) &&
      (forall l :: l in sourceLanguages ==> NormalizeLanguage(l, sourceCodes) == Ok(sourceLanguages[l])) &&
      (forall l :: l in targetLanguages ==> NormalizeLanguage(l, targetCodes) == Ok(targetLanguages[l]))
    }

    /** A client as built: nothing validated, fetched, memoised or sent yet. */
    ghost predicate Initial()
      reads this
    {
      !isApiKeyValidated && isApiKeyFree.None? && remainingCharacters.None? &&
      sourceLanguages == map[] && targetLanguages == map[] && requests == []
    }

    /** A client just built for `key` and `pattern`, with DeepL's language lists and tier order. */
    ghost predicate BuiltFor(key: string, pattern: string)
      reads this
    {
      apiKey == key && variablePattern == pattern && Initial() &&
      sourceCodes == SupportedSourceLanguages && targetCodes == SupportedTargetLanguages && tiers == ProbeOrder
    }

    lemma InitialIsValid()
      requires Initial()
      ensures Valid()
    {
    }

    /** `DeeplClient(api_key, variable_pattern)`, for a pattern with a group to replace. */
    constructor(apiKey: string, variablePattern: Option<string>, server: Server, custom: Codec)
      requires ReplacementPattern(EffectivePattern(variablePattern)).Some?
      ensures this.apiKey == apiKey && this.server == server
      ensures this.variablePattern == EffectivePattern(variablePattern)
      ensures replacementPattern == ReplacementPattern(this.variablePattern).value
      ensures codec == CodecFor(this.variablePattern, custom)
      ensures sourceCodes == SupportedSourceLanguages && targetCodes == SupportedTargetLanguages
      ensures tiers == ProbeOrder
      ensures Initial() && Valid() && BuiltFor(apiKey, this.variablePattern)
    {
      this.apiKey := apiKey;
      this.server := server;
      sourceCodes := SupportedSourceLanguages;
      targetCodes := SupportedTargetLanguages;
      tiers := ProbeOrder;
      var pattern := EffectivePattern(variablePattern);
      this.variablePattern := pattern;
      replacementPattern := ReplacementPattern(pattern).value;
      codec := CodecFor(pattern, custom);
      isApiKeyValidated := false;
      isApiKeyFree := None;
      sourceLanguages := map[];
      targetLanguages := map[];
      remainingCharacters := None;
      requests := [];
    }

    /** `__get_usage(is_api_key_free)`: one usage request. */
    method GetUsage(free: bool) returns (r: Result<int, ClientError>)
      modifies this`requests
      ensures requests == old(requests) + [UsageRequest(free)]
      ensures r == Ping(server, apiKey, old(requests), free)
    {
      var response := server.usage(apiKey, requests, free);
      requests := requests + [UsageRequest(free)];
      r := UsageOutcome(response);
    }

    /**
     * The loop of `__detect_api_key_type`: ping each tier in turn until one
     * answers, or answers with an error other than `InvalidApiKeyError`.
     */
    method PingTiers() returns (found: Result<bool, ClientError>)
      modifies this`requests
      ensures var p := ProbeTiers(server, apiKey, tiers, old(requests));
        requests == old(requests) + p.sent && found == p.outcome
      ensures OnlyUsage(old(requests), requests)
    {
      ghost var whole := ProbeTiers(server, apiKey, tiers, requests);
      ghost var history := requests;
      ghost var sent: seq<Request> := [];
      assert history + sent == history;
      found := Err(InvalidApiKeyError);
      var i := 0;
      while i < |tiers|
        invariant requests == history + sent
        invariant ProbeSoFar(server, apiKey, tiers, i, history, sent, whole)
      {
        ProbeAdvance(server, apiKey, tiers, i, history, sent, whole);
        var answer := GetUsage(tiers[i]);
        sent := sent + [UsageRequest(tiers[i])];
        if answer.Ok? {
          found := Ok(tiers[i]);
          assert whole == Probe(found, sent);
          break;
        }
        if answer.error != InvalidApiKeyError {
          found := Err(answer.error);
          assert whole == Probe(found, sent);
          break;
        }
        i := i + 1;
      }
      if i == |tiers| {
        assert sent + [] == sent;
      }
      assert whole == Probe(found, sent);
      ProbeOnlyUsage(server, apiKey, tiers, 0, history);
    }

    /** `__detect_api_key_type`: probe the tiers unless the tier is already known. */
    method DetectApiKeyType() returns (r: Result<(), ClientError>)
      modifies this`isApiKeyFree, this`requests
      ensures OnlyUsage(old(requests), requests)
      ensures old(isApiKeyFree).Some? ==> r.Ok? && isApiKeyFree == old(isApiKeyFree) && requests == old(requests)
      ensures old(isApiKeyFree).None? ==>
        var p := ProbeTiers(server, apiKey, tiers, old(requests));
        requests == old(requests) + p.sent &&
        (r.Ok? <==> p.outcome.Ok?) && (r.Err? ==> r.error == p.outcome.error) &&
        isApiKeyFree == (if p.outcome.Ok? then Some(p.outcome.value) else None)
    {
      if isApiKeyFree.Some? {
        return Ok(());
      }
      var found := PingTiers();
      if found.Err? {
        return Err(found.error);
      }
      isApiKeyFree := Some(found.value);
      return Ok(());
    }

    /** `validate_api_key`: probe once; a validated key is never probed again. */
    method ValidateApiKey() returns (r: Result<(), ClientError>)
      requires Valid()
      modifies this`isApiKeyValidated, this`isApiKeyFree, this`requests
      ensures Valid()
      ensures OnlyUsage(old(requests), requests)
      ensures r.Ok? <==> isApiKeyValidated
      ensures old(isApiKeyValidated) ==> r.Ok? && isApiKeyFree == old(isApiKeyFree) && requests == old(requests)
      ensures !old(isApiKeyValidated) ==>
        var p := ProbeTiers(server, apiKey, tiers, old(requests));
        requests == old(requests) + p.sent &&
        (r.Ok? <==> p.outcome.Ok?) && (r.Err? ==> r.error == p.outcome.error) &&
        isApiKeyFree == (if p.outcome.Ok? then Some(p.outcome.value) else None)
    {
      if isApiKeyValidated {
        return Ok(());
      }
      r := DetectApiKeyType();
      if r.Ok? {
        isApiKeyValidated := true;
      }
    }

    /**
     * What `usage()` answers from this client's state: the validation's
     * error, or the cached quota, or the one a usage request fetches.
     */
    ghost function QuotaFrom(): Result<int, ClientError>
      reads this
    {
      var v := Validated();
      if v.outcome.Err? then Err(v.outcome.error)
      else Fetch(server, apiKey, requests + v.sent, v.outcome.value, remainingCharacters).quota
    }

    /** What `validate_api_key` does from this client's state. */
    ghost function Validated(): Probe
      reads this
    {
      Validation(server, apiKey, tiers, requests, isApiKeyValidated && isApiKeyFree.Some?, isApiKeyFree)
    }

    /** The requests `usage()` sends from this client's state: the probe's, then the fetch's if the key is good. */
    ghost function UsageSent(): seq<Request>
      reads this
    {
      var v := Validated();
      if v.outcome.Err? then v.sent
      else v.sent + Fetch(server, apiKey, requests + v.sent, v.outcome.value, remainingCharacters).sent
    }

    /**
     * `usage`: validate the key, then fetch `limit - count` with one usage
     * request the first time, and answer from the cache after.
     */
    method Usage() returns (r: Result<int, ClientError>)
      requires Valid()
      modifies this`isApiKeyValidated, this`isApiKeyFree, this`requests, this`remainingCharacters
      ensures Valid()
      ensures OnlyUsage(old(requests), requests)
      ensures r.Ok? ==> remainingCharacters == Some(r.value) && isApiKeyValidated
      ensures r.Err? ==> remainingCharacters == old(remainingCharacters)
      ensures r.Err? ==> r.error.InvalidApiKeyError? || r.error.GenericError?
      ensures r == old(QuotaFrom()) && requests == old(requests) + old(UsageSent())
      ensures var v := old(Validated());
        (isApiKeyValidated <==> v.outcome.Ok?) && (v.outcome.Ok? ==> isApiKeyFree == Some(v.outcome.value))
      ensures r.Ok? ==> QuotaFrom() == r
    {
      ghost var v := Validation(server, apiKey, tiers, requests, isApiKeyValidated, isApiKeyFree);
      var validated := ValidateApiKey();
      if validated.Err? {
        return Err(validated.error);
      }
      assert v.outcome == Ok(isApiKeyFree.value) && requests == old(requests) + v.sent;
      if remainingCharacters.None? {
        var fetched := GetUsage(isApiKeyFree.value);
        if fetched.Err? {
          return Err(fetched.error);
        }
        remainingCharacters := Some(fetched.value);
      }
      return Ok(remainingCharacters.value);
    }

    /** `__get_formatted_source_language_for_api`: normalise, remembering successes. */
    method GetFormattedSourceLanguage(language: string) returns (r: Result<string, ClientError>)
      requires Valid()
      modifies this`sourceLanguages
      ensures Valid()
      ensures r == NormalizeLanguage(language, sourceCodes)
      ensures sourceLanguages == if r.Ok? then old(sourceLanguages)[language := r.value] else old(sourceLanguages)
    {
      if language in sourceLanguages {
        r := Ok(sourceLanguages[language]);
        return;
      }
      r := NormalizeLanguage(language, sourceCodes);
      if r.Ok? {
        sourceLanguages := sourceLanguages[language := r.value];
      }
    }

    /** `__get_formatted_target_language_for_api`: normalise, remembering successes. */
    method GetFormattedTargetLanguage(language: string) returns (r: Result<string, ClientError>)
      requires Valid()
      modifies this`targetLanguages
      ensures Valid()
      ensures r == NormalizeLanguage(language, targetCodes)
      ensures targetLanguages == if r.Ok? then old(targetLanguages)[language := r.value] else old(targetLanguages)
    {
      if language in targetLanguages {
        r := Ok(targetLanguages[language]);
        return;
      }
      r := NormalizeLanguage(language, targetCodes);
      if r.Ok? {
        targetLanguages := targetLanguages[language := r.value];
      }
    }

    /**
     * The body `__generate_body_for_translate` builds for one text: the
     * protected text and both normalised codes, the source code first, so
     * that an unsupported source language is the error reported when both are.
     */
    function Body(text: string, sourceLanguage: string, targetLanguage: string): Result<TranslateBody, ClientError> {
      var source := NormalizeLanguage(sourceLanguage, sourceCodes);
      var target := NormalizeLanguage(targetLanguage, targetCodes);
      if source.Err? then Err(source.error)
      else if target.Err? then Err(target.error)
      else Ok(TranslateBody(codec.protect(text), source.value, target.value))
    }

    /**
     * A body is built exactly when both codes are supported; it carries the
     * protected text and supported codes; otherwise the source language is
     * the one named if it is unsupported, else the target language.
     */
    lemma BodyCases(text: string, sourceLanguage: string, targetLanguage: string)
      ensures var r := Body(text, sourceLanguage, targetLanguage);
        (r.Ok? <==> NormalizeLanguage(sourceLanguage, sourceCodes).Ok? && NormalizeLanguage(targetLanguage, targetCodes).Ok?) &&
        (r.Ok? ==>
          r.value.text == codec.protect(text) && r.value.sourceLanguage in sourceCodes &&
          r.value.targetLanguage in targetCodes) &&
        (NormalizeLanguage(sourceLanguage, sourceCodes).Err? ==> r == Err(UnsupportedLanguageError(sourceLanguage))) &&
        (NormalizeLanguage(sourceLanguage, sourceCodes).Ok? && NormalizeLanguage(targetLanguage, targetCodes).Err? ==>
          r == Err(UnsupportedLanguageError(targetLanguage)))
    {
      NormalizeLanguageCases(sourceLanguage, sourceCodes);
      NormalizeLanguageCases(targetLanguage, targetCodes);
    }

    /** `__generate_body_for_translate` for one text, through the language memos. */
    method GenerateBody(text: string, sourceLanguage: string, targetLanguage: string) returns (r: Result<TranslateBody, ClientError>)
      requires Valid()
      modifies this`sourceLanguages, this`targetLanguages
      ensures Valid()
      ensures r == Body(text, sourceLanguage, targetLanguage)
      ensures sourceLanguages == Memoised(old(sourceLanguages), sourceLanguage, sourceCodes)
      ensures targetLanguages ==
        if NormalizeLanguage(sourceLanguage, sourceCodes).Ok? then Memoised(old(targetLanguages), targetLanguage, targetCodes)
        else old(targetLanguages)
    {
      var protected := codec.protect(text);
      var source := GetFormattedSourceLanguage(sourceLanguage);
      if source.Err? {
        return Err(source.error);
      }
      var target := GetFormattedTargetLanguage(targetLanguage);
      if target.Err? {
        return Err(target.error);
      }
      return Ok(TranslateBody(protected, source.value, target.value));
    }

    /**
     * `log[k]` asks the service to translate `body`, the service accepted
     * it, and `t` is its answer, restored.
     */
    ghost predicate Answered(log: seq<Request>, k: nat, body: TranslateBody, t: string) {
      k < |log| && log[k].TranslateRequest? && log[k].body == body &&
      server.translate(apiKey, log[..k], log[k]).status == 200 &&
      t == codec.restore(server.translate(apiKey, log[..k], log[k]).translation)
    }

    /** `log[k]` answered `t` to the body of `text` between the two languages. */
    ghost predicate AnsweredAt(log: seq<Request>, k: nat, text: string, sourceLanguage: string, targetLanguage: string, t: string) {
      Body(text, sourceLanguage, targetLanguage).Ok? && Answered(log, k, Body(text, sourceLanguage, targetLanguage).value, t)
    }

    /** Later requests do not change what an earlier request was answered. */
    lemma AnsweredKept(log: seq<Request>, log': seq<Request>, k: nat, body: TranslateBody, t: string)
      requires log <= log' && Answered(log, k, body, t)
      ensures Answered(log', k, body, t)
    {
      assert log'[..k] == log[..k];
    }

    /** Later requests do not change what an earlier request was answered for a text. */
    lemma AnsweredAtKept(log: seq<Request>, log': seq<Request>, k: nat,
                         text: string, sourceLanguage: string, targetLanguage: string, t: string)
      requires log <= log' && AnsweredAt(log, k, text, sourceLanguage, targetLanguage, t)
      ensures AnsweredAt(log', k, text, sourceLanguage, targetLanguage, t)
    {
      AnsweredKept(log, log', k, Body(text, sourceLanguage, targetLanguage).value, t);
    }

    /** The state `PostFrom` describes, with `r` as the answer. */
    ghost function Snapshot(r: Result<string, ClientError>): Posting
      reads this
    {
      Posting(r, requests, isApiKeyValidated, isApiKeyFree, remainingCharacters)
    }

    /**
     * `__post_translate` for one text: build the body, then, with the tier
     * known (probing it first if the key is not validated yet), do what
     * `Post` does. Nothing is sent for an unsupported language. A success
     * is the answer to the last request, which carried this text's body and
     * came after usage requests only.
     */
    method PostTranslate(text: string, sourceLanguage: string, targetLanguage: string) returns (r: Result<string, ClientError>)
      requires Valid()
      modifies this
      ensures Valid()
      ensures sourceLanguages == Memoised(old(sourceLanguages), sourceLanguage, sourceCodes)
      ensures targetLanguages ==
        if NormalizeLanguage(sourceLanguage, sourceCodes).Ok? then Memoised(old(targetLanguages), targetLanguage, targetCodes)
        else old(targetLanguages)
      ensures Body(text, sourceLanguage, targetLanguage).Err? ==>
        r == Err(Body(text, sourceLanguage, targetLanguage).error) && requests == old(requests) &&
        remainingCharacters == old(remainingCharacters) &&
        isApiKeyValidated == old(isApiKeyValidated) && isApiKeyFree == old(isApiKeyFree)
      ensures Body(text, sourceLanguage, targetLanguage).Ok? ==>
        Snapshot(r) == PostFrom(server, apiKey, tiers, codec, old(requests), old(isApiKeyValidated),
                                old(isApiKeyFree), old(remainingCharacters), Body(text, sourceLanguage, targetLanguage).value)
      ensures old(requests) <= requests
      ensures r.Ok? ==>
        |requests| > |old(requests)| && TranslateRequests(requests[|old(requests)|..]) == 1 &&
        AnsweredAt(requests, |requests| - 1, text, sourceLanguage, targetLanguage, r.value)
    {
      var body := GenerateBody(text, sourceLanguage, targetLanguage);
      if body.Err? {
        return Err(body.error);
      }
      r := PostBody(body.value);
    }

    /**
     * Lines 184-191 of `__post_translate`, once the body is built: `usage()`
     * validates the key first if need be, then the rest is `PostKnown`.
     * A success answers `body` with the last request,
     * sent after usage requests only.
     */
    method PostBody(body: TranslateBody) returns (r: Result<string, ClientError>)
      requires Valid()
      modifies this`isApiKeyValidated, this`isApiKeyFree, this`requests, this`remainingCharacters
      ensures Valid()
      ensures Snapshot(r) ==
        PostFrom(server, apiKey, tiers, codec, old(requests), old(isApiKeyValidated), old(isApiKeyFree), old(remainingCharacters), body)
      ensures old(requests) <= requests
      ensures r.Ok? ==>
        |requests| > |old(requests)| && TranslateRequests(requests[|old(requests)|..]) == 1 &&
        Answered(requests, |requests| - 1, body, r.value)
    {
      ghost var v := Validation(server, apiKey, tiers, requests, isApiKeyValidated, isApiKeyFree);
      var validated := ValidateApiKey();
      if validated.Err? {
        return Err(validated.error);
      }
      assert v.outcome == Ok(isApiKeyFree.value) && requests == old(requests) + v.sent;
      ghost var checked := requests;
      TranslateRequestsNone(old(requests), checked);
      r := PostKnown(body);
      PostKnownAnswers(checked, isApiKeyFree.value, old(remainingCharacters), body);
      if r.Ok? {
        TranslateRequestsStep(old(requests), checked, requests);
      }
    }

    /**
     * Lines 184-191 of `__post_translate` with the key validated: what
     * `Post` does for its tier.
     */
    method PostKnown(body: TranslateBody) returns (r: Result<string, ClientError>)
      requires Valid() && isApiKeyValidated
      modifies this`isApiKeyValidated, this`isApiKeyFree, this`requests, this`remainingCharacters
      ensures Valid() && isApiKeyValidated && isApiKeyFree == old(isApiKeyFree)
      ensures var p := Post(server, apiKey, codec, old(requests), isApiKeyFree.value, old(remainingCharacters), body);
        r == p.result && requests == old(requests) + p.sent && remainingCharacters == p.remaining
    {
      var count := |body.text|;
      var remaining := Usage();
      ghost var f := Fetch(server, apiKey, old(requests), isApiKeyFree.value, old(remainingCharacters));
      assert old(requests) + [] == old(requests);
      assert remaining == f.quota && requests == old(requests) + f.sent;
      if remaining.Err? {
        return Err(remaining.error);
      }
      if remaining.value < count {
        return Err(UsageError(NotEnoughCharacters));
      }
      var sent := TranslateRequest(isApiKeyFree.value, body);
      var response := server.translate(apiKey, requests, sent);
      requests := requests + [sent];
      assert requests == old(requests) + (f.sent + [sent]);
      var checked := HandleResponse(response.status, response.body);
      if checked.Err? {
        return Err(checked.error);
      }
      remainingCharacters := Some(remaining.value - count);
      return Ok(codec.restore(response.translation));
    }

    /**
     * One body posted with the key's tier known, from log `before` and
     * cached quota `known` to `log` and `remaining`: exactly one translate
     * request went out, last, and was answered `t`; a cached quota was
     * charged by the body's text, an unknown one fetched by the first
     * request sent and then charged.
     */
    ghost predicate PostedOne(before: seq<Request>, log: seq<Request>, tier: bool, known: Option<int>,
                              remaining: Option<int>, body: TranslateBody, t: string)
    {
      before <= log && |before| < |log| && TranslateRequests(log[|before|..]) == 1 &&
      Answered(log, |log| - 1, body, t) &&
      remaining.Some? && remaining.value >= 0 &&
      (known.Some? ==> remaining == Some(known.value - |body.text|)) &&
      (known.None? ==>
        log[|before|] == UsageRequest(tier) && Ping(server, apiKey, before, tier).Ok? &&
        remaining == Some(Ping(server, apiKey, before, tier).value - |body.text|))
    }

    /** A successful `Post` with the tier known is `PostedOne`. */
    lemma PostKnownAnswers(start: seq<Request>, tier: bool, known: Option<int>, body: TranslateBody)
      ensures var p := Post(server, apiKey, codec, start, tier, known, body);
        p.result.Ok? ==> PostedOne(start, start + p.sent, tier, known, p.remaining, body, p.result.value)
    {
      var p := Post(server, apiKey, codec, start, tier, known, body);
      var log := start + p.sent;
      if p.result.Ok? {
        var last := p.sent[|p.sent| - 1];
        assert log[..|log| - 1] == start + p.sent[..|p.sent| - 1];
        assert log[|log| - 1] == last;
        assert log[|start|..] == p.sent;
        assert p.sent[..|p.sent| - 1] + [last] == p.sent;
        assert TranslateRequests(p.sent[..|p.sent| - 1]) == 0;
        assert start + [] == start;
      }
    }

    /**
     * `__post_translate` as `translate` calls it, with the key validated:
     * build the body, then do what `Post` does for the key's tier. Nothing
     * is sent for an unsupported language.
     */
    method PostValidated(text: string, sourceLanguage: string, targetLanguage: string) returns (r: Result<string, ClientError>)
      requires Valid() && isApiKeyValidated
      modifies this
      ensures Valid() && isApiKeyValidated && isApiKeyFree == old(isApiKeyFree) && old(requests) <= requests
      ensures var b := Body(text, sourceLanguage, targetLanguage);
        (b.Err? ==> r == Err(b.error) && requests == old(requests) && remainingCharacters == old(remainingCharacters)) &&
        (b.Ok? ==>
          var p := Post(server, apiKey, codec, old(requests), isApiKeyFree.value, old(remainingCharacters), b.value);
          r == p.result && requests == old(requests) + p.sent && remainingCharacters == p.remaining)
      ensures r.Ok? ==>
        Body(text, sourceLanguage, targetLanguage).Ok? &&
        PostedOne(old(requests), requests, isApiKeyFree.value, old(remainingCharacters), remainingCharacters,
                  Body(text, sourceLanguage, targetLanguage).value, r.value)
    {
      var body := GenerateBody(text, sourceLanguage, targetLanguage);
      if body.Err? {
        return Err(body.error);
      }
      r := PostKnown(body.value);
      PostKnownAnswers(old(requests), isApiKeyFree.value, old(remainingCharacters), body.value);
    }

    /**
     * The loop of `translate` with the key's tier known, from request log
     * `log` and cached quota `known`: each text's body is built and posted
     * in turn, and the first error stops the rest.
     */
    function PostAll(log: seq<Request>, tier: bool, known: Option<int>, texts: seq<string>,
                     sourceLanguage: string, targetLanguage: string): (t: Translation)
      ensures log <= t.log
      ensures t.result.Ok? ==> |t.result.value| == |texts|
      decreases |texts|
    {
      if texts == [] then Translation(Ok([]), log, known)
      else
        var b := Body(texts[0], sourceLanguage, targetLanguage);
        if b.Err? then Translation(Err(b.error), log, known)
        else
          var p := Post(server, apiKey, codec, log, tier, known, b.value);
          if p.result.Err? then Translation(Err(p.result.error), log + p.sent, p.remaining)
          else After([p.result.value], PostAll(log + p.sent, tier, p.remaining, texts[1..], sourceLanguage, targetLanguage))
    }

    /** `PostAll` on the texts from `i` on, one text unfolded. */
    lemma PostAllNext(log: seq<Request>, tier: bool, known: Option<int>, texts: seq<string>, i: nat,
                      sourceLanguage: string, targetLanguage: string)
      requires i < |texts|
      ensures var b := Body(texts[i], sourceLanguage, targetLanguage);
        PostAll(log, tier, known, texts[i..], sourceLanguage, targetLanguage) ==
          if b.Err? then Translation(Err(b.error), log, known)
          else
            var p := Post(server, apiKey, codec, log, tier, known, b.value);
            if p.result.Err? then Translation(Err(p.result.error), log + p.sent, p.remaining)
            else After([p.result.value], PostAll(log + p.sent, tier, p.remaining, texts[i + 1..], sourceLanguage, targetLanguage))
    {
      assert texts[i..][0] == texts[i] && texts[i..][1..] == texts[i + 1..];
    }

    /**
     * `translate([text])` with the tier known and `quota` left, as `log`
     * shows it afterwards: a text in an unsupported language fails before
     * anything is sent, a body longer than the quota is refused, and
     * otherwise the body went out last and `r` is what the service's
     * response to it makes of it.
     */
    ghost predicate AnsweredOne(log: seq<Request>, tier: bool, quota: int, text: string,
                                sourceLanguage: string, targetLanguage: string, r: Result<string, ClientError>)
    {
      var b := Body(text, sourceLanguage, targetLanguage);
      (b.Err? ==> r == Err(b.error)) &&
      (b.Ok? && quota < |b.value.text| ==> r == Err(UsageError(NotEnoughCharacters))) &&
      (b.Ok? && quota >= |b.value.text| ==>
        |log| > 0 && log[|log| - 1] == TranslateRequest(tier, b.value) &&
        r == Reply(codec, server.translate(apiKey, log[..|log| - 1], log[|log| - 1])))
    }

    /** `PostAll` on a single text: its body built and posted, nothing more. */
    lemma PostAllSingle(log: seq<Request>, tier: bool, known: Option<int>, text: string,
                        sourceLanguage: string, targetLanguage: string)
      ensures var b := Body(text, sourceLanguage, targetLanguage);
        PostAll(log, tier, known, [text], sourceLanguage, targetLanguage) ==
          if b.Err? then Translation(Err(b.error), log, known)
          else
            var p := Post(server, apiKey, codec, log, tier, known, b.value);
            if p.result.Err? then Translation(Err(p.result.error), log + p.sent, p.remaining)
            else Translation(Ok([p.result.value]), log + p.sent, p.remaining)
    {
      PostAllNext(log, tier, known, [text], 0, sourceLanguage, targetLanguage);
      var b := Body(text, sourceLanguage, targetLanguage);
      if b.Ok? {
        var p := Post(server, apiKey, codec, log, tier, known, b.value);
        if p.result.Ok? {
          assert [text][1..] == [];
          assert PostAll(log + p.sent, tier, p.remaining, [], sourceLanguage, targetLanguage).result == Ok([]);
          assert [p.result.value] + [] == [p.result.value];
        }
      }
    }

    /** One text through `PostAll` with a cached quota is `AnsweredOne`. */
    lemma PostAllOne(log: seq<Request>, tier: bool, quota: int, text: string, sourceLanguage: string, targetLanguage: string)
      ensures var t := PostAll(log, tier, Some(quota), [text], sourceLanguage, targetLanguage);
        AnsweredOne(t.log, tier, quota, text, sourceLanguage, targetLanguage,
                    if t.result.Ok? then Ok(t.result.value[0]) else Err(t.result.error))
    {
      var b := Body(text, sourceLanguage, targetLanguage);
      PostAllSingle(log, tier, Some(quota), text, sourceLanguage, targetLanguage);
      if b.Ok? {
        PostCached(server, apiKey, codec, log, tier, quota, b.value);
        var p := Post(server, apiKey, codec, log, tier, Some(quota), b.value);
        if quota >= |b.value.text| {
          assert (log + p.sent)[..|log|] == log;
        }
      }
    }

    /** Every text was answered by the request at its index, each by its own. */
    ghost predicate AnsweredAll(log: seq<Request>, at: seq<nat>, texts: seq<string>, translated: seq<string>,
                                sourceLanguage: string, targetLanguage: string)
    {
      |at| == |texts| == |translated| &&
      (forall j :: 0 <= j < |texts| ==> AnsweredAt(log, at[j], texts[j], sourceLanguage, targetLanguage, translated[j])) &&
      (forall j, l :: 0 <= j < l < |at| ==> at[j] < at[l])
    }

    /**
     * `PostAll` after its first text: an answered first text, its body
     * posted from `log` to `mid` and answered `t`, leaves the quota `left`
     * and is followed by what `PostAll` makes of the rest from there.
     */
    lemma PostAllFirst(log: seq<Request>, tier: bool, known: Option<int>, texts: seq<string>,
                       sourceLanguage: string, targetLanguage: string)
      returns (mid: seq<Request>, left: Option<int>, t: string)
      requires texts != []
      ensures var all := PostAll(log, tier, known, texts, sourceLanguage, targetLanguage);
        all.result.Ok? ==>
          var b := Body(texts[0], sourceLanguage, targetLanguage);
          var rest := PostAll(mid, tier, left, texts[1..], sourceLanguage, targetLanguage);
          b.Ok? && |b.value.text| == |codec.protect(texts[0])| &&
          PostedOne(log, mid, tier, known, left, b.value, t) &&
          rest.result.Ok? && all.log == rest.log && all.remaining == rest.remaining &&
          all.result.value == [t] + rest.result.value
    {
      mid, left, t := log, known, "";
      var b := Body(texts[0], sourceLanguage, targetLanguage);
      BodyCases(texts[0], sourceLanguage, targetLanguage);
      if b.Ok? {
        PostKnownAnswers(log, tier, known, b.value);
        var p := Post(server, apiKey, codec, log, tier, known, b.value);
        mid, left := log + p.sent, p.remaining;
        if p.result.Ok? {
          t := p.result.value;
        }
      }
    }

    /** The answer to a text posted last, kept once more requests follow. */
    lemma PostedAnswered(log: seq<Request>, mid: seq<Request>, tier: bool, known: Option<int>, left: Option<int>,
                         text: string, t: string, sourceLanguage: string, targetLanguage: string, after: seq<Request>)
      requires Body(text, sourceLanguage, targetLanguage).Ok?
      requires PostedOne(log, mid, tier, known, left, Body(text, sourceLanguage, targetLanguage).value, t)
      requires mid <= after
      ensures |log| <= |mid| - 1 < |mid| && AnsweredAt(after, |mid| - 1, text, sourceLanguage, targetLanguage, t)
    {
      AnsweredKept(mid, after, |mid| - 1, Body(text, sourceLanguage, targetLanguage).value, t);
    }

    /**
     * A first text answered at `k`, before the answers `later` to the
     * others: all the texts answered in order, none before `floor`.
     */
    lemma AnsweredAllCons(log: seq<Request>, k: nat, later: seq<nat>, texts: seq<string>, translated: seq<string>,
                          floor: nat, sourceLanguage: string, targetLanguage: string)
      returns (at: seq<nat>)
      requires texts != [] && translated != [] && floor <= k
      requires AnsweredAt(log, k, texts[0], sourceLanguage, targetLanguage, translated[0])
      requires AnsweredAll(log, later, texts[1..], translated[1..], sourceLanguage, targetLanguage)
      requires forall j :: 0 <= j < |later| ==> k < later[j]
      ensures at == [k] + later
      ensures AnsweredAll(log, at, texts, translated, sourceLanguage, targetLanguage)
      ensures forall j :: 0 <= j < |at| ==> floor <= at[j]
    {
      at := [k] + later;
      forall j | 0 < j < |texts|
        ensures AnsweredAt(log, at[j], texts[j], sourceLanguage, targetLanguage, translated[j])
      {
        assert at[j] == later[j - 1] && texts[j] == texts[1..][j - 1] && translated[j] == translated[1..][j - 1];
      }
    }

    /**
     * On success `PostAll` answered each text by a translate request of its
     * own, sent after `log` and in order.
     */
    lemma {:induction false} PostAllAnswers(log: seq<Request>, tier: bool, known: Option<int>, texts: seq<string>,
                                            sourceLanguage: string, targetLanguage: string)
      returns (at: seq<nat>)
      ensures var t := PostAll(log, tier, known, texts, sourceLanguage, targetLanguage);
        t.result.Ok? ==>
          AnsweredAll(t.log, at, texts, t.result.value, sourceLanguage, targetLanguage) &&
          forall j :: 0 <= j < |at| ==> |log| <= at[j]
      decreases |texts|
    {
      at := [];
      if texts != [] {
        var mid, left, first := PostAllFirst(log, tier, known, texts, sourceLanguage, targetLanguage);
        var all := PostAll(log, tier, known, texts, sourceLanguage, targetLanguage);
        if all.result.Ok? {
          var rest := PostAll(mid, tier, left, texts[1..], sourceLanguage, targetLanguage);
          var later := PostAllAnswers(mid, tier, left, texts[1..], sourceLanguage, targetLanguage);
          PostedAnswered(log, mid, tier, known, left, texts[0], first, sourceLanguage, targetLanguage, rest.log);
          assert all.result.value[0] == first && all.result.value[1..] == rest.result.value;
          at := AnsweredAllCons(all.log, |mid| - 1, later, texts, all.result.value, |log|, sourceLanguage, targetLanguage);
        }
      }
    }

    /** On success `PostAll` sent one translate request per text after `log`, and no other. */
    lemma {:induction false} PostAllCount(log: seq<Request>, tier: bool, known: Option<int>, texts: seq<string>,
                                          sourceLanguage: string, targetLanguage: string)
      ensures var t := PostAll(log, tier, known, texts, sourceLanguage, targetLanguage);
        t.result.Ok? ==> TranslateRequests(t.log[|log|..]) == |texts|
      decreases |texts|
    {
      var t := PostAll(log, tier, known, texts, sourceLanguage, targetLanguage);
      if texts == [] {
        assert t.log[|log|..] == [];
      } else {
        var mid, left, first := PostAllFirst(log, tier, known, texts, sourceLanguage, targetLanguage);
        if t.result.Ok? {
          var rest := PostAll(mid, tier, left, texts[1..], sourceLanguage, targetLanguage);
          PostAllCount(mid, tier, left, texts[1..], sourceLanguage, targetLanguage);
          assert t.log[|log|..] == mid[|log|..] + rest.log[|mid|..];
          TranslateRequestsAppend(mid[|log|..], rest.log[|mid|..]);
        }
      }
    }

    /**
     * On success `PostAll` from a cached quota leaves that quota less the
     * protected length of the texts, never below zero once a text was sent.
     */
    lemma {:induction false} PostAllCharges(log: seq<Request>, tier: bool, quota: int, texts: seq<string>,
                                            sourceLanguage: string, targetLanguage: string)
      ensures var t := PostAll(log, tier, Some(quota), texts, sourceLanguage, targetLanguage);
        t.result.Ok? ==>
          t.remaining == Some(quota - ProtectedLength(codec, texts)) &&
          (texts != [] ==> t.remaining.value >= 0)
      decreases |texts|
    {
      if texts != [] {
        var mid, left, first := PostAllFirst(log, tier, Some(quota), texts, sourceLanguage, targetLanguage);
        var t := PostAll(log, tier, Some(quota), texts, sourceLanguage, targetLanguage);
        if t.result.Ok? {
          PostAllCharges(mid, tier, left.value, texts[1..], sourceLanguage, targetLanguage);
        }
      }
    }

    /**
     * On success `PostAll` without a cached quota fetched it first, with a
     * usage request sent right after `log`, and left it less the protected
     * length of the texts.
     */
    lemma PostAllFetches(log: seq<Request>, tier: bool, texts: seq<string>, sourceLanguage: string, targetLanguage: string)
      requires texts != []
      ensures var t := PostAll(log, tier, None, texts, sourceLanguage, targetLanguage);
        t.result.Ok? ==>
          |log| < |t.log| && t.log[..|log|] == log && t.log[|log|] == UsageRequest(tier) &&
          Ping(server, apiKey, log, tier).Ok? &&
          t.remaining == Some(Ping(server, apiKey, log, tier).value - ProtectedLength(codec, texts)) &&
          t.remaining.value >= 0
    {
      var mid, left, first := PostAllFirst(log, tier, None, texts, sourceLanguage, targetLanguage);
      var t := PostAll(log, tier, None, texts, sourceLanguage, targetLanguage);
      if t.result.Ok? {
        PostAllCharges(mid, tier, left.value, texts[1..], sourceLanguage, targetLanguage);
        assert mid[|log|] == t.log[|log|] && mid[..|log|] == t.log[..|log|];
      }
    }

    /**
     * `PostAll` fails only on a text, and only with what `translate` may
     * raise: an unsupported source or target language, a bad key, a client
     * error for a status, or a short quota.
     */
    lemma {:induction false} PostAllErrors(log: seq<Request>, tier: bool, known: Option<int>, texts: seq<string>,
                                           sourceLanguage: string, targetLanguage: string)
      ensures var t := PostAll(log, tier, known, texts, sourceLanguage, targetLanguage);
        t.result.Err? ==>
          texts != [] &&
          (t.result.error == UnsupportedLanguageError(sourceLanguage) ||
           t.result.error == UnsupportedLanguageError(targetLanguage) ||
           t.result.error == InvalidApiKeyError || t.result.error.GenericError? ||
           t.result.error == UsageError(NotEnoughCharacters))
      decreases |texts|
    {
      if texts != [] {
        var b := Body(texts[0], sourceLanguage, targetLanguage);
        BodyCases(texts[0], sourceLanguage, targetLanguage);
        if b.Ok? {
          PostErrors(server, apiKey, codec, log, tier, known, b.value);
          var p := Post(server, apiKey, codec, log, tier, known, b.value);
          if p.result.Ok? {
            PostAllErrors(log + p.sent, tier, p.remaining, texts[1..], sourceLanguage, targetLanguage);
          }
        }
      }
    }

    /**
     * What a successful `PostAll` after `start` amounts to, when nothing
     * since `start` and before `log` was a translate request: each text
     * answered by a translate request of its own, in order, no other
     * translate request, and the quota, cached or fetched by the usage
     * request at `u`, less the protected length of the texts.
     */
    lemma PostAllSummary(start: seq<Request>, log: seq<Request>, tier: bool, known: Option<int>, texts: seq<string>,
                         sourceLanguage: string, targetLanguage: string)
      returns (at: seq<nat>, quota: int, u: nat)
      requires start <= log && TranslateRequests(log[|start|..]) == 0
      ensures var t := PostAll(log, tier, known, texts, sourceLanguage, targetLanguage);
        t.result.Ok? ==>
          AnsweredAll(t.log, at, texts, t.result.value, sourceLanguage, targetLanguage) &&
          (forall j :: 0 <= j < |at| ==> |start| <= at[j]) &&
          TranslateRequests(t.log[|start|..]) == |texts| &&
          (texts == [] ==> t.remaining == known) &&
          (texts != [] ==> t.remaining == Some(quota - ProtectedLength(codec, texts)) && t.remaining.value >= 0) &&
          (texts != [] && known.Some? ==> quota == known.value) &&
          (texts != [] && known.None? ==>
            |start| <= u < |t.log| && t.log[u] == UsageRequest(tier) && Ping(server, apiKey, t.log[..u], tier) == Ok(quota))
    {
      var t := PostAll(log, tier, known, texts, sourceLanguage, targetLanguage);
      at := PostAllAnswers(log, tier, known, texts, sourceLanguage, targetLanguage);
      PostAllCount(log, tier, known, texts, sourceLanguage, targetLanguage);
      assert t.log[|start|..] == log[|start|..] + t.log[|log|..];
      TranslateRequestsAppend(log[|start|..], t.log[|log|..]);
      quota, u := 0, 0;
      if texts != [] {
        if known.Some? {
          quota := known.value;
          PostAllCharges(log, tier, quota, texts, sourceLanguage, targetLanguage);
        } else if t.result.Ok? {
          quota, u := Ping(server, apiKey, log, tier).value, |log|;
          PostAllFetches(log, tier, texts, sourceLanguage, targetLanguage);
        }
      }
    }

    /**
     * `translate`: validate the key, then post each text in turn; the first
     * error stops the rest. Exactly what `Validation` then `PostAll` do from
     * the state before the call. On success each text's translation is the
     * answer to a translate request of its own, sent in order; no other
     * translate request is sent; and the quota, cached or fetched by the
     * usage request `u`, drops by the total protected length.
     */
    method Translate(texts: seq<string>, sourceLanguage: string, targetLanguage: string)
      returns (r: Result<seq<string>, ClientError>, ghost at: seq<nat>, ghost quota: int, ghost u: nat)
      requires Valid()
      modifies this
      ensures Valid()
      ensures old(requests) <= requests
      ensures var v := Validation(server, apiKey, tiers, old(requests), old(isApiKeyValidated), old(isApiKeyFree));
        (v.outcome.Err? ==>
          r == Err(v.outcome.error) && requests == old(requests) + v.sent &&
          remainingCharacters == old(remainingCharacters)) &&
        (v.outcome.Ok? ==>
          isApiKeyValidated && isApiKeyFree == Some(v.outcome.value) &&
          var t := PostAll(old(requests) + v.sent, v.outcome.value, old(remainingCharacters), texts,
                           sourceLanguage, targetLanguage);
          r == t.result && requests == t.log && remainingCharacters == t.remaining)
      ensures r.Ok? ==> |r.value| == |texts| && isApiKeyValidated
      ensures r.Err? ==>
        r.error == UnsupportedLanguageError(sourceLanguage) || r.error == UnsupportedLanguageError(targetLanguage) ||
        r.error == InvalidApiKeyError || r.error.GenericError? || r.error == UsageError(NotEnoughCharacters)
      ensures r.Ok? ==> AnsweredAll(requests, at, texts, r.value, sourceLanguage, targetLanguage)
      ensures r.Ok? ==> forall j :: 0 <= j < |at| ==> |old(requests)| <= at[j]
      ensures r.Ok? ==> TranslateRequests(requests[|old(requests)|..]) == |texts|
      ensures r.Ok? && texts == [] ==> remainingCharacters == old(remainingCharacters)
      ensures r.Ok? && texts != [] ==>
        remainingCharacters == Some(quota - ProtectedLength(codec, texts)) && remainingCharacters.value >= 0
      ensures r.Ok? && texts != [] && old(remainingCharacters).Some? ==> quota == old(remainingCharacters).value
      ensures r.Ok? && texts != [] && old(remainingCharacters).None? ==>
        |old(requests)| <= u < |requests| && requests[u] == UsageRequest(isApiKeyFree.value) &&
        Ping(server, apiKey, requests[..u], isApiKeyFree.value) == Ok(quota)
    {
      at, quota, u := [], 0, 0;
      ghost var v := Validation(server, apiKey, tiers, requests, isApiKeyValidated, isApiKeyFree);
      var validated := ValidateApiKey();
      if validated.Err? {
        return Err(validated.error), at, quota, u;
      }
      assert v.outcome == Ok(isApiKeyFree.value) && requests == old(requests) + v.sent;
      ghost var checked, known, tier := requests, remainingCharacters, isApiKeyFree.value;
      TranslateRequestsNone(old(requests), checked);
      at, quota, u := PostAllSummary(old(requests), checked, tier, known, texts, sourceLanguage, targetLanguage);
      PostAllErrors(checked, tier, known, texts, sourceLanguage, targetLanguage);
      r := PostEach(texts, sourceLanguage, targetLanguage);
    }

    /**
     * The loop of `translate`, the key validated: post each text in turn;
     * the first error stops the rest. Exactly what `PostAll` does.
     */
    method PostEach(texts: seq<string>, sourceLanguage: string, targetLanguage: string)
      returns (r: Result<seq<string>, ClientError>)
      requires Valid() && isApiKeyValidated
      modifies this
      ensures Valid() && isApiKeyValidated && isApiKeyFree == old(isApiKeyFree)
      ensures var t := PostAll(old(requests), isApiKeyFree.value, old(remainingCharacters), texts,
                               sourceLanguage, targetLanguage);
        r == t.result && requests == t.log && remainingCharacters == t.remaining
    {
      ghost var tier := isApiKeyFree.value;
      ghost var whole := PostAll(requests, tier, remainingCharacters, texts, sourceLanguage, targetLanguage);
      var translated: seq<string> := [];
      assert texts[0..] == texts;
      AfterNone(whole);
      for i := 0 to |texts|
        invariant Valid() && isApiKeyValidated && isApiKeyFree == Some(tier)
        invariant whole == After(translated, PostAll(requests, tier, remainingCharacters, texts[i..],
                                                     sourceLanguage, targetLanguage))
      {
        PostAllNext(requests, tier, remainingCharacters, texts, i, sourceLanguage, targetLanguage);
        ghost var rest := PostAll(requests, tier, remainingCharacters, texts[i..], sourceLanguage, targetLanguage);
        var one := PostValidated(texts[i], sourceLanguage, targetLanguage);
        if one.Err? {
          assert whole == rest;
          return Err(one.error);
        }
        AfterAfter(translated, [one.value], PostAll(requests, tier, remainingCharacters, texts[i + 1..],
                                                    sourceLanguage, targetLanguage));
        translated := translated + [one.value];
      }
      assert texts[|texts|..] == [] && translated + [] == translated;
      return Ok(translated);
    }
  }

  lemma {:induction false} ProtectedLengthSnoc(codec: Codec, texts: seq<string>, text: string)
    ensures ProtectedLength(codec, texts + [text]) == ProtectedLength(codec, texts) + |codec.protect(text)|
    decreases |texts|
  {
    if texts != [] {
      assert (texts + [text])[1..] == texts[1..] + [text];
      ProtectedLengthSnoc(codec, texts[1..], text);
    }
  }



  /** Every client in the list is in a consistent state. */
  ghost predicate AllValid(clients: seq<DeeplClient>)
    reads clients
  {
    forall c :: c in clients ==> c.Valid()
  }

  /** The quotas of clients whose quota has been fetched. */
  function Quotas(clients: seq<DeeplClient>): (q: seq<int>)
    requires forall c :: c in clients ==> c.remainingCharacters.Some?
    reads clients
    ensures |q| == |clients| && forall i :: 0 <= i < |q| ==> q[i] == clients[i].remainingCharacters.value
  {
    if clients == [] then []
    else [clients[0].remainingCharacters.value] + Quotas(clients[1..])
  }

  /** What `usage()` answers for each client, from their states. */
  ghost function Outcomes(clients: seq<DeeplClient>): (o: seq<Result<int, ClientError>>)
    reads clients
    ensures |o| == |clients| && forall i :: 0 <= i < |o| ==> o[i] == clients[i].QuotaFrom()
  {
    if clients == [] then [] else [clients[0].QuotaFrom()] + Outcomes(clients[1..])
  }

  /** The answers in order when all succeed, else the first error: a loop stopped by its first exception. */
  function Collect(outcomes: seq<Result<int, ClientError>>): (r: Result<seq<int>, ClientError>)
    ensures r.Ok? <==> forall i :: 0 <= i < |outcomes| ==> outcomes[i].Ok?
    ensures r.Ok? ==> |r.value| == |outcomes| && forall i :: 0 <= i < |outcomes| ==> outcomes[i] == Ok(r.value[i])
  {
    if outcomes == [] then Ok([])
    else if outcomes[0].Err? then Err(outcomes[0].error)
    else
      var rest := Collect(outcomes[1..]);
      if rest.Err? then rest else Ok([outcomes[0].value] + rest.value)
  }

  /** The error `Collect` reports is the first one. */
  lemma {:induction false} CollectFirstError(outcomes: seq<Result<int, ClientError>>, i: nat)
    requires i < |outcomes| && outcomes[i].Err? && forall j :: 0 <= j < i ==> outcomes[j].Ok?
    ensures Collect(outcomes) == Err(outcomes[i].error)
    decreases i
  {
    if i > 0 {
      assert outcomes[1..][i - 1] == outcomes[i];
      CollectFirstError(outcomes[1..], i - 1);
    }
  }

  /** When every answer succeeds, `Collect` gives them all, in order. */
  lemma CollectAll(outcomes: seq<Result<int, ClientError>>, quotas: seq<int>)
    requires |quotas| == |outcomes| && forall i :: 0 <= i < |outcomes| ==> outcomes[i] == Ok(quotas[i])
    ensures Collect(outcomes) == Ok(quotas)
  {
    assert Collect(outcomes).value == quotas;
  }

  const NoRemainingCharacters: string := "No clients have remaining characters."

  /**
   * The `usage()` calls of `best_client`: every client is asked for its
   * quota, in order, and the first error stops the rest. What they answer
   * is what `usage()` answers from the clients' states before the call.
   */
  method AskQuotas(clients: seq<DeeplClient>) returns (r: Result<seq<int>, ClientError>)
    requires AllValid(clients)
    modifies clients
    ensures AllValid(clients)
    ensures forall c :: c in clients ==> OnlyUsage(old(c.requests), c.requests)
    ensures r == Collect(old(Outcomes(clients)))
    ensures r.Ok? ==> forall j :: 0 <= j < |clients| ==>
      clients[j].isApiKeyValidated && clients[j].remainingCharacters == Some(r.value[j])
  {
    ghost var outcomes := Outcomes(clients);
    var quotas: seq<int> := [];
    for i := 0 to |clients|
      invariant AllValid(clients)
      invariant |quotas| == i
      invariant forall j :: 0 <= j < i ==>
        clients[j].isApiKeyValidated && clients[j].remainingCharacters == Some(quotas[j]) && outcomes[j] == Ok(quotas[j])
      invariant forall j :: 0 <= j < |clients| ==> clients[j].QuotaFrom() == outcomes[j]
      invariant forall c :: c in clients ==> OnlyUsage(old(c.requests), c.requests)
    {
      label asking:
      var quota := clients[i].Usage();
      forall c | c in clients
        ensures OnlyUsage(old(c.requests), c.requests)
      {
        assert OnlyUsage(old(c.requests), old@asking(c.requests));
      }
      if quota.Err? {
        CollectFirstError(outcomes, i);
        return Err(quota.error);
      }
      quotas := quotas + [quota.value];
      // a client met again answers from its cache; the others are as they were
      forall j | 0 <= j < |clients|
        ensures clients[j].QuotaFrom() == outcomes[j]
      {
        if clients[j] == clients[i] {
          assert outcomes[j] == outcomes[i];
        } else {
          assert old@asking(clients[j].QuotaFrom()) == clients[j].QuotaFrom();
        }
      }
      forall j | 0 <= j <= i
        ensures clients[j].isApiKeyValidated && clients[j].remainingCharacters == Some(quotas[j]) && outcomes[j] == Ok(quotas[j])
      {
        if clients[j] == clients[i] {
          assert outcomes[j] == outcomes[i];
        }
      }
    }
    CollectAll(outcomes, quotas);
    return Ok(quotas);
  }

  /**
   * `best_client`: ask every client for its quota, in order (a client whose
   * key fails stops the choice), then take the first of the largest
   * positive quotas; `UsageError` if none is positive. The choice is made
   * on what `usage()` answers from the clients' states before the call.
   */
  method BestClient(clients: seq<DeeplClient>) returns (r: Result<DeeplClient, ClientError>)
    requires AllValid(clients)
    modifies clients
    ensures AllValid(clients)
    ensures forall c :: c in clients ==> OnlyUsage(old(c.requests), c.requests)
    ensures var asked := Collect(old(Outcomes(clients)));
      (asked.Err? ==> r == Err(asked.error)) &&
      (asked.Ok? ==>
        (forall c :: c in clients ==> c.isApiKeyValidated && c.remainingCharacters.Some?) &&
        Quotas(clients) == asked.value &&
        (BestIndex(asked.value).None? ==> r == Err(UsageError(NoRemainingCharacters))) &&
        (BestIndex(asked.value).Some? ==> r == Ok(clients[BestIndex(asked.value).value])))
    ensures r.Ok? ==> r.value in clients && r.value.remainingCharacters.Some? && r.value.remainingCharacters.value > 0
    ensures r.Ok? ==> forall c :: c in clients ==> c.remainingCharacters.value <= r.value.remainingCharacters.value
  {
    var asked := AskQuotas(clients);
    if asked.Err? {
      return Err(asked.error);
    }
    var quotas := asked.value;
    assert Quotas(clients) == quotas;
    BestIndexCharacterised(quotas);
    var best := BestIndex(quotas);
    if best.None? {
      return Err(UsageError(NoRemainingCharacters));
    }
    r := Ok(clients[best.value]);
  }

  /**
   * `generate_clients`: one client per key, in order, all with the same
   * pattern; `None` is the construction failing on a pattern without a
   * group, which only happens if there is a key to build a client for.
   */
  method GenerateClients(apiKeys: seq<string>, variablePattern: Option<string>, server: Server, custom: Codec)
    returns (r: Option<seq<DeeplClient>>)
    ensures r.None? <==> apiKeys != [] && ReplacementPattern(EffectivePattern(variablePattern)).None?
    ensures r.Some? ==> |r.value| == |apiKeys|
    ensures r.Some? ==> forall i :: 0 <= i < |apiKeys| ==>
      fresh(r.value[i]) && r.value[i].BuiltFor(apiKeys[i], EffectivePattern(variablePattern))
  {
    if apiKeys != [] && ReplacementPattern(EffectivePattern(variablePattern)).None? {
      return None;
    }
    var clients: seq<DeeplClient> := [];
    for i := 0 to |apiKeys|
      invariant |clients| == i
      invariant forall j :: 0 <= j < i ==>
        fresh(clients[j]) && clients[j].BuiltFor(apiKeys[j], EffectivePattern(variablePattern))
    {
      var client := new DeeplClient(apiKeys[i], variablePattern, server, custom);
      clients := clients + [client];
    }
    return Some(clients);
  }
}
