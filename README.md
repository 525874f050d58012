# auto-localize synchronisation engine, in Dafny

This project models the core of auto-localize. For one source localisation file and one target language, the tool does the following:

- it derives the path of the target file;
- it diffs the source tree against the target tree, listing the key paths of source leaves that the target lacks;
- it translates each missing leaf through a memo that starts empty for that file and language;
- it merges each translation into the target tree.

Translation goes through DeepL clients. Each client probes whether its key is a free or a premium key, fetches its character quota once, charges it locally for every request, normalises language codes through a memo, and protects `%{...}` placeholders as `<x>...</x>` tags around each request. The client with the largest quota is chosen for every text not yet translated.

Modules, one per part of the program:

- `Tree`: the parsed YAML/JSON data. A dict is an insertion-ordered association list (`Entries`) of `Null`, `Str`, `Lst` and `Dict` values. It defines `dict.get`, item assignment and the `reduce` lookup of a key path.
- `Diff`: `BaseFile.find_missing_keys` as a recursive function, with its set characterisation, its output order and its edge cases.
- `Merge`: the merge loop of the main script. `MergePath` walks down the key path and back up. It is proved equal to the recursive definition `SetPath`, about which the merge properties are proved.
- `Memo`: `generate_target_translation`. The shared dict is the class `TranslationCache`. Its ghost field `misses` records every text that was sent to a translator, and its ghost field `origins` records, for each memoised text, the client and the request whose answer it holds.
- `Deepl`: the DeepL client as a class whose fields are the fields the Python object updates. The service is a `Server` value. Its answer to a request depends on the key and on every request that client sent before, and the client records the requests it sends in `requests`.
- `ClientBase`: the error classes, the default variable pattern, and the derivation of the replacement template (the first group of the pattern becomes `\1`).
- `Placeholder`: `re.sub` protect and restore for the default pattern `%{(.*?)}`, with lazy matching that stops at a newline.
- `Sync`: target-path derivation and the loop of the main script over the missing paths (`FillTarget`).
- `FilePaths`: the glob pattern and the parent directory, as pure string computations.
- `FileFactory`, `ClientFactory`: the name-to-class factories.
- `Text`: the Python string operations used: `split`, `join`, `replace` and ASCII `upper`.
- `Wrappers`: the `Option` and `Result` types.

Where Python raises an exception, the model returns `Err` (or `None`).

Notes on how the code behaves:

- A source leaf is reported missing only when its key is absent from the target (`src/files/base.py:73`). A target value of a different kind does not make it missing, so the merge never overwrites an existing value of the wrong kind.
- A source dict whose key the target lacks is not enumerated separately. The recursion receives `{}`, and `Diff.MissingFromEmpty` shows that this reports every leaf beneath it.
- A non-200 response other than 403 raises a plain `ClientError` (`GenericError` here), not `TranslationError`, which the code never raises.

## Model

| member | source | states |
|---|---|---|
| Tree.Put | src/main.py:53-55 | After `d[k] = v`, `k` maps to `v` and every other key keeps its value. An existing key keeps its place in the key order, and a new key is appended at the end. |
| Tree.LookupThroughChild | src/main.py:40 | A path of two or more keys is looked up in the dict under its first key. A missing key or a non-dict on the way gives no value. This is one step of the `reduce`, unfolded. |
| Diff.FindMissingKeys | src/files/base.py:55-75 | Every reported path is longer than the prefix and starts with it. |
| Diff.MissingKeysSound | src/files/base.py:66-74 | Every reported path lies under the prefix. The rest of the path leads to a string or list leaf of the source, and the target lacks its key. |
| Diff.MissingKeysComplete | src/files/base.py:66-74 | Every path to a source leaf whose key the target lacks is reported, after the prefix. |
| Diff.MissingKeysCharacterised | src/files/base.py:55-75 | A path is reported exactly when it leads to a string or list leaf of the source and its last key is absent from the target. Paths to `None` values and to dicts are never reported, at any depth. |
| Diff.LeafReportedIffAbsent | src/files/base.py:72-74 | A leaf directly under the source dict is reported as `prefix + [key]` exactly when `key` is absent from the target, whatever the target holds there. |
| Diff.MissingFromEmpty | src/files/base.py:70-71 | Against `{}`, the diff is every leaf path of the source, in pre-order. This is what a dict whose key the target lacks contributes. |
| Diff.CompatibleWithEmpty | src/files/base.py:71 | `{}` is a well-typed target for every source, so the recursion with `target.get(key, {})` is always well typed. |
| Diff.MissingKeysConcat | src/files/base.py:66-75 | The diff of `a` followed by `b` is the diff of `a` followed by the diff of `b`. Output follows source key order, and one entry's paths are contiguous. |
| Diff.SelfDiffEmpty | src/files/base.py:66-75 | Diffing a well-formed tree against itself reports nothing. |
| Merge.MergePath | src/main.py:50-55 | The walk down the path, with absent or non-dict intermediates replaced by `{}`, followed by the assignment, yields the tree `SetPath` defines. |
| Merge.MergeWritesValue | src/main.py:55 | After the merge, walking the target along the path yields the written value. |
| Merge.MergeLevels | src/main.py:51-54 | At every depth of the path, the merged tree holds a dict under the next key. The dict there agrees with the one there before (or `{}`) on every other key. |
| Merge.MergeKeepsOthers | src/main.py:50-55 | Every path that parts ways with the merge path leads to what it led to before, so siblings at every level are unchanged. |
| Merge.MergeKeepsPresence | src/main.py:50-55 | A key path present before the merge is still present, unless the merge path is a proper prefix of it. |
| Merge.MergeMakesPresent | src/main.py:55 | The merged path is present afterwards. |
| Merge.MergeExamples | src/main.py:51-55 | Merging `["a", "b"]` into `{}` gives `{"a": {"b": v}}`. It gives the same when `"a"` held a string. |
| Merge.LeafPathsDiverge | src/main.py:39-55 | Two different leaf paths of one tree part ways, so merging one missing path never overwrites another. |
| Merge.LeafPathNotAbove | src/main.py:39-55 | No leaf path of a tree is a proper prefix of another. |
| Merge.MergeKeepsCompatible | src/main.py:50-55 | Merging at a path where the source holds no dict keeps the target well typed for the diff. |
| Sync.DirectoryWithoutPlaceholder | src/main.py:26 | A directory template without `{language}` names the same directory for every language. |
| Sync.TargetPathUnderSource | src/main.py:32 | A file under the source directory (with `{language}` set to the source language), whose remaining path does not repeat that directory, maps to the same remaining path under the target directory (with `{language}` set to the target language). |
| Sync.FillTarget | src/main.py:36-55 | The missing paths are merged in diff order into a tree that later merges see, using a memo that starts empty. On success: nothing is missing any more; every missing path holds the translation of its source leaf through the returned memo contents; every path that parts ways with all missing paths is unchanged. Every memoised translation is the restored reply that one of the clients gave to a translate request for that text between the two languages. The memo holds exactly the texts asked for, each asked once, all of them texts of missing leaves. Each client's request log only grows, and each client sent exactly as many translate requests as the memoised texts it answered. When nothing is missing, the target comes back as it was. On error, some missing path leads to a source text the memo did not hold, so the error came from asking the clients for it. |
| Sync.FillNext | src/main.py:39-55 | One turn of the loop: what holds after the first `i` missing paths (`Filled`: pending paths cover every absent leaf, merged paths hold their translation, other paths are unchanged, texts asked for belong to merged leaves) holds after `i + 1`. The memo stays answered by the clients, and each client's translate requests keep matching the texts it answered. On error, the leaf at the `i`-th missing path holds a text that the memo did not hold. |
| Sync.LoopStart | src/main.py:36-39 | Before the loop, every absent source leaf is pending, nothing is merged and nothing is asked. |
| Sync.LoopDone | src/main.py:39-55 | After the loop nothing is missing, every missing leaf holds its translation, every other path is unchanged, and the texts asked for are distinct and belong to missing leaves. |
| Memo.FreshCharacterised | src/utils.py:18-27 | The texts sent out are exactly the texts of the input not already known, with no text sent twice. |
| Memo.FreshExample | src/utils.py:18-22 | For distinct texts `a`, `b`, `c`, the list `[a, b, a, c, b]` with `c` known sends `a` and `b`, once each. |
| Memo.Translated | src/utils.py:16-27 | The translated leaf has the same kind and length as the source leaf, and its i-th text is the memo's entry for the i-th source text. |
| Memo.TranslatedConsistent | src/utils.py:18-22 | Equal texts get equal translations, within one list and across leaves sharing the memo. |
| Memo.TranslatedGrown | src/utils.py:19-21 | A memo that only grew translates a leaf as before. |
| Memo.TranslationCache.constructor | src/main.py:38 | The memo starts empty and nothing has been sent. |
| Memo.TranslationCache.Store | src/utils.py:21 | `target_translations[text] = translation` adds exactly that entry and logs the text as asked, with the request that answered it. The memo stays consistent, and every entry stays a client's answer. |
| Memo.Resolve | src/utils.py:23-27 | On a hit: the stored translation is returned, nothing changes and no client sends a request. On a miss, the result is `BestAnswer`'s: the first error of the clients' `usage()` calls, `UsageError` when no client has characters left, or the best client's answer to one translate request for the text. On a miss with success: the answer is stored under the text and the text is logged as asked. On error: the text was a miss and the memo is unchanged. Every memoised translation stays the answer one of the clients gave to a translate request for its text. Request logs only grow, and each client sent as many translate requests as the new texts it answered. |
| Memo.Learn | src/utils.py:21 | A miss asks the best client. The result is `BestAnswer`'s for the clients' states before the call. On success, the answer is stored under the text, the text is logged, and only the client that answered sent a translate request, exactly one. On error the memo is unchanged. |
| Memo.AskBestClient | src/utils.py:21 | The result is `BestAnswer`'s. The clients are asked for their quotas in order, as `usage()` answers from their states before the call. The first error among those answers is the result. With every quota known, `UsageError` is the result when none is positive. Otherwise the client at `BestIndex` of the quotas answers: an unsupported language fails, a text longer than its quota is refused, and otherwise the result is that client's restored reply to the translate request it sent last. On success, the origin names that client. The chosen client sent exactly one translate request, and the others none. |
| Memo.ResolveAll | src/utils.py:16-22 | The result has the input's length, and its j-th element is the memo's entry for the j-th text. Entries are only added, never overwritten, and each new one is a client's answer for its text. The texts sent are exactly the new distinct texts, in order of first appearance. Each client sent exactly as many translate requests as those texts it answered. On error, the loop stopped at some element `k` that the memo does not hold. The memo holds what it held before plus the elements before `k`, and the texts asked for are the new ones among them. |
| Memo.ResolveNext | src/utils.py:18-22 | One element of the list: the loop's progress after `i` elements (memo grown by exactly the elements seen, translations in order, texts asked for being the new ones) holds after `i + 1`, and the clients' translate requests keep matching the texts they answered. On error, element `i` was a miss, the memo and the log of asked texts are unchanged, and the error is `BestAnswer`'s. |
| Memo.ResolveStep | src/utils.py:18-22 | On the memo's contents alone: resolving element `i` extends the progress of the first `i` elements to `i + 1`. |
| Memo.GenerateTargetTranslation | src/utils.py:3-28 | Every text of the leaf is in the memo afterwards. The result is the leaf translated through the memo. Entries are only added, and each new one is a client's answer for its text. The texts sent are exactly the distinct texts the memo did not hold. Each client sent exactly as many translate requests as those texts it answered. On error for a string leaf, its text was a miss, the memo is unchanged, and the error is `BestAnswer`'s. On error for a list, the list stopped at an element the memo does not hold, as for `ResolveAll`. |
| Memo.AskedOnce | src/utils.py:19-21 | A log of asked texts as long as the set of memoised texts, holding the same texts, repeats none: no text is translated twice. |
| Memo.SourcedInsert | src/utils.py:21 | Storing a translation that a client answered keeps every memo entry a client's answer. |
| ClientBase.EffectivePattern | src/client/base.py:19-25 | The pattern is the given one, or `%{(.*?)}` when none or an empty one is given. |
| ClientBase.FindGroupCorrect | src/client/base.py:20 | The search finds the leftmost `(`...`)` with no parenthesis inside, and finds nothing only when there is none. |
| ClientBase.ReplacementFailsWithoutGroup | src/client/base.py:75 | Deriving the template fails exactly when the pattern has no such group. |
| ClientBase.ReplacementReplacesFirstGroup | src/client/base.py:75 | When the leftmost group spans `p[i..k + 1]`, the template exists. Cutting the pattern at every occurrence of that group's text and gluing the pieces with `\1` gives the template. |
| ClientBase.DefaultReplacement | src/client/base.py:19-26 | The default pattern yields the template `%{\1}`. |
| ClientBase.NoParenNoGroup | src/client/base.py:75 | A pattern without parentheses has no group, so building a client with it fails. |
| Placeholder.CloseIndex | src/client/deepl.py:217 | The lazy `.*?` stops at the first closing delimiter, and only if no newline comes before it. |
| Placeholder.RestoreProtect | src/client/deepl.py:210-227 | Restoring protected text gives back the original, for text without `<x>` or `</x>` of its own. |
| Deepl.NormalizeLanguageCases | src/client/deepl.py:241-255 | The result is the upper-cased, `_`→`-` code if it is supported. Otherwise it is that code's primary subtag if that is supported. Otherwise it is `UnsupportedLanguageError` naming the input. It fails exactly when neither is supported. The same function serves the source list (lines 269-283). |
| Deepl.PrimarySubtagPrefix | src/client/deepl.py:252 | The subtag before the first `-` is a prefix of the code and contains no `-`. |
| Deepl.NormalizeIdempotent | src/client/deepl.py:249-254 | A normalised code normalises to itself. |
| Deepl.NormalizeIgnoresCase | src/client/deepl.py:249 | Letter case and the choice of `_` or `-` do not change whether or how a code is normalised. |
| Deepl.NormalizeTargetExample | src/client/deepl.py:249-251 | Target `pt_br` normalises to `PT-BR`. |
| Deepl.NormalizeSourceExample | src/client/deepl.py:277-282 | Source `en-us` falls back to `EN`. |
| Deepl.HandleResponseCases | src/client/deepl.py:294-298 | Status 200 succeeds, and only it. Status 403 is `InvalidApiKeyError`, and only it. Any other status is a generic client error carrying the body. |
| Deepl.UsageOutcomeCases | src/client/deepl.py:167-171 | A usage response succeeds exactly on status 200, with `limit - count` left. Otherwise it fails as the status check says, with `InvalidApiKeyError` or a generic client error. |
| Deepl.ProbeFrom | src/client/deepl.py:95-102 | The probe sends at most one request per remaining tier. It fails only with `InvalidApiKeyError` or a generic error. |
| Deepl.ProbeOrderCases | src/client/deepl.py:93-102 | Cases for the free tier's answer: success means the key is free after one request; an error other than `InvalidApiKeyError` ends the probe with that error; `InvalidApiKeyError` moves on to the premium tier, whose answer decides. |
| Deepl.ProbeBothRefused | src/client/deepl.py:102 | A key both tiers refuse is an invalid key. |
| Deepl.Positives | src/client/deepl.py:45 | The candidates are indices of clients with a positive quota. |
| Deepl.PositivesComplete | src/client/deepl.py:45 | Every client with a positive quota is a candidate, and the candidates keep list order. |
| Deepl.FirstMax | src/client/deepl.py:48 | `max` returns one of the candidates. |
| Deepl.FirstMaxIsFirstMaximum | src/client/deepl.py:48 | The candidate `max` returns has the largest quota among the candidates. No earlier candidate has a quota that large. |
| Deepl.BestIndexCharacterised | src/client/deepl.py:45-48 | There is no choice exactly when no quota is positive. Otherwise the chosen quota is positive and at least every other, and ties go to the earliest client. |
| Deepl.CodecFor | src/client/deepl.py:210-227 | With the default pattern, restore undoes protect on every text without `<x>` or `</x>` of its own. With any other pattern, the substitutions are the given ones. |
| Deepl.DefaultRoundTrip | src/client/deepl.py:210-227 | For every text without `<x>` or `</x>` of its own, the default restore undoes the default protect. |
| Deepl.ValidationSendsNoTranslation | src/client/deepl.py:62-71 | Validating the key sends usage requests only, never a translate request. |
| Deepl.PostFacts | src/client/deepl.py:184-191 | With the tier known: a cached quota is used, otherwise one usage request fetches it, and a failed fetch is the error with the cache unchanged. A body longer than the quota is refused with `UsageError` before any translate request, and only then. At most one translate request goes out, last. A success charges the quota by exactly the body's length and returns the restored reply to that request. |
| Deepl.PostCached | src/client/deepl.py:184-191 | With a cached quota: a body longer than it is refused with nothing sent. Otherwise exactly the body's translate request goes out, and the result is the reply to it. |
| Deepl.PostErrors | src/client/deepl.py:184-191 | Posting a body fails only with `InvalidApiKeyError`, a generic client error, or `UsageError` for a short quota. |
| Deepl.ReplyCases | src/client/deepl.py:187-189 | A translate response succeeds exactly on status 200, with the restored translation. Status 403 is `InvalidApiKeyError`, and any other failing status is a generic client error carrying the body. |
| Deepl.ProtectedLength | src/client/deepl.py:184 | A request for no text costs nothing, and a request for one text costs the length of its protected form. |
| Deepl.DeeplClient.constructor | src/client/deepl.py:19-24 | A new client holds its key and effective pattern, with the template derived from it and DeepL's language lists. Nothing is validated, fetched, memoised or sent. |
| Deepl.DeeplClient.GetUsage | src/client/deepl.py:157-171 | Exactly one usage request for the given tier is sent, and the answer is the server's reply to it. |
| Deepl.DeeplClient.PingTiers | src/client/deepl.py:95-102 | The requests sent and the outcome are those of the probe (`ProbeTiers`) from the requests sent so far. |
| Deepl.DeeplClient.DetectApiKeyType | src/client/deepl.py:87-102 | A known tier is kept, with no request. Otherwise the probe is run, and its tier is recorded on success or its error returned. |
| Deepl.DeeplClient.ValidateApiKey | src/client/deepl.py:62-71 | A validated key is never probed again. Otherwise the key is validated exactly when the probe finds a tier. |
| Deepl.DeeplClient.Usage | src/client/deepl.py:73-83 | The answer and the requests sent are `QuotaFrom` and `UsageSent` of the state before the call. A fetched quota is returned with no request. Otherwise the key is validated, which validates it exactly when the probe finds a tier. Then one usage request for the key's tier fetches `limit - count`, which is cached, and asking again gives the same answer. On error the cache is unchanged, and the error is `InvalidApiKeyError` or a generic client error. Only usage requests are sent. |
| Deepl.DeeplClient.GetFormattedSourceLanguage | src/client/deepl.py:257-267 | The result is the normalisation of the input. Successes are memoised and failures are not. |
| Deepl.DeeplClient.GetFormattedTargetLanguage | src/client/deepl.py:229-239 | The result is the normalisation of the input. Successes are memoised and failures are not. |
| Deepl.DeeplClient.BodyCases | src/client/deepl.py:193-208 | The body succeeds exactly when both codes normalise, and holds the protected text and supported codes. An unsupported source code is reported before an unsupported target code. |
| Deepl.DeeplClient.GenerateBody | src/client/deepl.py:193-208 | The body built through the language memos is `Body`. |
| Deepl.DeeplClient.PostTranslate | src/client/deepl.py:173-191 | An unsupported language fails before any request, leaving log, tier and quota unchanged. Otherwise the new request log, validation, tier and quota are exactly `PostFrom`'s: the validation `usage()` calls for, then, with the quota cached or fetched by one usage request, refusal with `UsageError` exactly when it is short, or one translate request and a charge of exactly the protected length. The language memos memoise successes only. On success exactly one translate request went out, last, and the result is its restored reply. |
| Deepl.DeeplClient.PostBody | src/client/deepl.py:184-191 | The new request log, validation, tier and quota are exactly `PostFrom`'s for the body. On success exactly one translate request went out, last, and the result is its restored reply. |
| Deepl.DeeplClient.PostKnown | src/client/deepl.py:184-191 | With the key validated, the answer, the requests sent and the quota left are exactly `Post`'s, and the tier is kept. |
| Deepl.DeeplClient.PostKnownAnswers | src/client/deepl.py:184-191 | A successful post sent one translate request, last, answered with the result. A cached quota is charged by the body's length; an unknown one is fetched by the first request sent, then charged. |
| Deepl.DeeplClient.PostValidated | src/client/deepl.py:60 | One text posted as `translate` posts it. An unsupported language fails before any request, with log and quota unchanged. Otherwise the answer or error, the requests sent and the quota left are exactly `Post`'s for the body, and the tier is kept. On success the post is the one `PostKnownAnswers` describes. |
| Deepl.DeeplClient.Translate | src/client/deepl.py:50-60 | The result has one translation per text, and the key is validated. Each text's translation is the restored reply to a translate request of its own, sent during the call, in the order of the texts. Exactly as many translate requests were sent as there are texts. The quota, cached before the call or fetched by the usage request `u`, drops by the total protected length and stays non-negative. The answers or first error, the request log and the quota left are exactly those of validation followed by `PostAll`. A failed validation returns its error with the quota unchanged. Any error is an unsupported source or target language, `InvalidApiKeyError`, a generic client error, or `UsageError` for a short quota. |
| Deepl.DeeplClient.PostEach | src/client/deepl.py:60 | The loop over the texts, the key validated: the answers or the first error, the request log and the quota left are exactly `PostAll`'s, and the tier is kept. |
| Deepl.DeeplClient.PostAll | src/client/deepl.py:60 | The loop of `translate` as a function: the log only grows, and a success has one answer per text. |
| Deepl.DeeplClient.PostAllNext | src/client/deepl.py:60 | From the `i`-th text on, one text is unfolded: its body is built and posted, an error stops the rest, and a success is followed by the rest. |
| Deepl.DeeplClient.PostAllSingle | src/client/deepl.py:60 | One text alone: its body built and posted, and nothing more. |
| Deepl.DeeplClient.PostAllOne | src/client/deepl.py:60 | One text with a cached quota: an unsupported language fails, a body longer than the quota is refused, and otherwise the body went out last and the result is the reply to it. |
| Deepl.DeeplClient.PostAllFirst | src/client/deepl.py:60 | A successful loop posted its first text as `PostedOne` describes and then succeeded on the rest from there. |
| Deepl.DeeplClient.PostedAnswered | src/client/deepl.py:60 | The answer to a text posted last is kept once more requests follow. |
| Deepl.DeeplClient.AnsweredAllCons | src/client/deepl.py:60 | A first text answered before the answers to the others gives all texts answered in order. |
| Deepl.DeeplClient.PostAllAnswers | src/client/deepl.py:60 | On success each text was answered by a translate request of its own, sent after the start and in order. |
| Deepl.DeeplClient.PostAllCount | src/client/deepl.py:60 | On success exactly one translate request per text was sent, and no other. |
| Deepl.DeeplClient.PostAllCharges | src/client/deepl.py:60 | On success from a cached quota, the quota drops by the protected length of the texts, and stays non-negative once a text was sent. |
| Deepl.DeeplClient.PostAllFetches | src/client/deepl.py:60 | On success without a cached quota, a usage request right after the start fetched it, and it then dropped by the protected length of the texts. |
| Deepl.DeeplClient.PostAllErrors | src/client/deepl.py:50-60 | The loop fails only on a text, and only with an unsupported source or target language, `InvalidApiKeyError`, a generic client error, or `UsageError` for a short quota. |
| Deepl.DeeplClient.PostAllSummary | src/client/deepl.py:50-60 | On success after a start with no translate request since: each text answered by its own request in order, no other translate request, and the quota, cached or fetched by the usage request at `u`, charged by the protected length. |
| Deepl.BestClient | src/client/deepl.py:37-48 | Every client's quota is asked for in order, as `usage()` answers from the clients' states before the call. The first error is the result. With every quota fetched, the choice is `BestIndex`'s: a client with a positive quota at least every other, with ties to the earliest, or `UsageError` when none is positive. Only usage requests are sent. |
| Deepl.AskQuotas | src/client/deepl.py:45 | The `usage()` calls of `best_client`: the result is the answers of the clients' states before the call, or the first error among them. On success every client is validated and holds its quota. Only usage requests are sent. |
| Deepl.Collect | src/client/deepl.py:45 | The answers are all collected exactly when none fails, in order. |
| Deepl.CollectFirstError | src/client/deepl.py:45 | When the first `i` answers succeed and the `i`-th fails, the `i`-th error is the result. |
| Deepl.GenerateClients | src/client/deepl.py:26-35 | One new client per key, in order, with the shared effective pattern. Building fails exactly when there is a key and the pattern has no group. |
| FilePaths.GlobPattern | src/files/base.py:38-42 | A directory is globbed as `<dir>/**/*.<ext>`, with at most one trailing `/` of the path dropped. Any other path is globbed as itself. |
| FilePaths.GlobIgnoresTrailingSlash | src/files/base.py:39-41 | A directory gives the same pattern with or without its trailing `/`. |
| FilePaths.ParentDirectory | src/files/base.py:90-93 | `os.makedirs` is called exactly when the path contains a `/`. The text before the last `/` is passed to `os.makedirs`, so `/name.yml` gives the empty string. The file name after it holds no `/`. |
| FileFactory.ForType | src/files/factory.py:19-23 | `yaml` and `yml` give `YamlFile`, `json` gives `JsonFile`, and anything else is `UnsupportedFileException`. |
| FileFactory.CaseVariantsRefused | src/files/factory.py:19-23 | `YAML`, `Yml` and `JSON` are refused. |
| ClientFactory.ForType | src/client/factory.py:18-20 | Exactly `deepl` gives `DeeplClient`. Anything else is `UnsupportedClientError`. |
| ClientFactory.CaseVariantRefused | src/client/factory.py:18 | `DeepL` and `DEEPL` are refused. |

## Left out

- Diff.FindMissingKeys: requires that wherever the source holds a dict, the target holds a dict or nothing. Otherwise Python would run `key in value` on a string, a list or `None`: a substring or membership test, or a `TypeError`.
- Deepl.DeeplClient.constructor: requires a pattern with a group. The `TypeError` the source raises for a pattern without one is modelled by `Deepl.GenerateClients` returning `None`.
- Merge.MergePath: returns the new tree instead of updating the target in place, so aliasing of the nested dicts is not modelled. The same applies to `Sync.FillTarget`, which returns the updated target tree.
- Sync.FillTarget: an error from a client ends the call with that error. In the source the exception ends the whole script.
- Deepl.GenerateClients: a custom pattern that is not a valid regular expression makes `re.compile` (src/client/base.py:25) raise `re.error`. Custom patterns are not interpreted, so that failure is not modelled, and "fails exactly when" covers only the missing group.
- Deepl.DeeplClient.Translate: the language memos after the call are not stated, and neither are the validation flag and the tier after a failed validation. The request log, the quota and, after a successful validation, the tier are stated exactly.
- Memo.ResolveAll: on error, the contract says at which element the loop stopped and what the memo then holds, but not which client error came back. That error is `BestAnswer`'s for the clients' states when that element was reached, and those states are not kept after the call.
- Memo.GenerateTargetTranslation: for a list, the error side is `ResolveAll`'s, with the same gap.
- Sync.FillNext: on error, the contract names the leaf text that the memo did not hold, but not which client error came back, for the same reason as `Memo.ResolveAll`.
- Sync.FillTarget: on error, the contract names a missing path whose leaf text the memo did not hold, but not which client error came back, for the same reason as `Memo.ResolveAll`.
- Sync.TargetPathUnderSource: covers a path with one leading occurrence of the source directory. A path where the directory occurs more than once, all of which `str.replace` rewrites, is not covered by a lemma.
- Deepl.NormalizeIgnoresCase: the error carries the input as written, so two spellings agree on success but not on the text of the error.
- HTTP: URLs, headers and JSON encoding and decoding are not modelled. A response is its status, its body text and the fields read from its JSON (`character_count`, `character_limit`, and one translation). Malformed JSON, non-numeric counts and a `translations` list of other than one item are not modelled.
- Regular expressions: a custom variable pattern is not interpreted. Its protect and restore substitutions are the parameter `custom` of the client.
- Regular expressions: only the default pattern's protect and restore are defined.
- Regular expressions: the group search of the replacement derivation is modelled as a textual scan for `(`...`)`.
- File I/O: reading, writing and touching files, parsing YAML and JSON, checking existence, globbing and `os.makedirs` are not modelled.
- Reading the environment, splitting the configuration on `,`, and the `print` logging are not modelled.
- The outer loops over source files and target languages are not modelled. `Sync.FillTarget` is one turn of them.
- `str.upper` is modelled on ASCII letters only.
- List items are strings and leaves are strings or lists of strings. Numbers, booleans and nested lists in the files are not modelled.
- The error classes are one datatype. That `InvalidApiKeyError`, `UnsupportedLanguageError`, `TranslationError` and `UsageError` are `ClientError`s is carried by that type, not stated in a contract.
