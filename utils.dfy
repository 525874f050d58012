/**
 * `generate_target_translation`: the per-run memo between the source leaves
 * and the translation clients. A text is sent for translation only when the
 * memo does not hold it yet; what comes back is stored and reused.
 */
module Memo {
  import opened Wrappers
  import opened Tree
  import opened ClientBase
  import opened Deepl

  /** The texts of a leaf, in order. */
  function Texts(v: Value): (r: seq<string>)
    requires IsLeaf(v)
    ensures v.Str? ==> r == [v.text]
    ensures v.Lst? ==> r == v.items
  {
    if v.Str? then [v.text] else v.items
  }

  /**
   * The texts among `items` that are not `known`, each once, in the order of
   * their first appearance: the texts a run of the memo sends out.
   */
  function Fresh(items: seq<string>, known: set<string>): seq<string>
    decreases |items|
  {
    if items == [] then []
    else
      var init := items[..|items| - 1];
      var last := items[|items| - 1];
      if last in known || last in init then Fresh(init, known) else Fresh(init, known) + [last]
  }

  /** No text is sent twice, none already known is sent, and every unknown text is sent. */
  lemma {:induction false} FreshCharacterised(items: seq<string>, known: set<string>)
    ensures forall x :: x in Fresh(items, known) <==> x in items && x !in known
    ensures forall i, j :: 0 <= i < j < |Fresh(items, known)| ==> Fresh(items, known)[i] != Fresh(items, known)[j]
    decreases |items|
  {
    if items != [] {
      var init := items[..|items| - 1];
      FreshCharacterised(init, known);
      assert items == init + [items[|items| - 1]];
    }
  }

  /** A single text is sent exactly when it is not known. */
  lemma FreshOne(text: string, known: set<string>)
    ensures Fresh([text], known) == if text in known then [] else [text]
  {
    assert [text][..0] == [];
  }

  /** One more text: it is sent exactly when it is neither known nor seen before. */
  lemma FreshSnoc(items: seq<string>, known: set<string>, i: nat)
    requires i < |items|
    ensures Fresh(items[..i + 1], known) ==
      if items[i] in known || items[i] in items[..i] then Fresh(items[..i], known)
      else Fresh(items[..i], known) + [items[i]]
  {
    assert items[..i + 1][..i] == items[..i];
  }

  /**
   * The list loop after `i` elements: the memo grew from `start` by exactly
   * the elements seen so far, `translated` holds their translations in
   * order, and the texts asked for were those of them not `known` before.
   */
  ghost predicate Progress(items: seq<string>, i: nat, known: set<string>, start: map<string, string>, base: seq<string>,
                           entries: map<string, string>, misses: seq<string>, translated: seq<string>)
  {
    i <= |items| && |translated| == i && Grown(start, entries) &&
    (forall x :: x in entries <==> x in known || x in items[..i]) &&
    (forall j :: 0 <= j < i ==> items[j] in entries && translated[j] == entries[items[j]]) &&
    misses == base + Fresh(items[..i], known)
  }

  /** Before the list loop nothing is seen, translated or asked for. */
  lemma ProgressStart(items: seq<string>, start: map<string, string>, base: seq<string>)
    ensures Progress(items, 0, start.Keys, start, base, start, base, [])
  {
    assert items[..0] == [] && base + [] == base;
  }

  /**
   * The list loop stopped at element `k`: the memo grew from `start` by
   * exactly the elements before it, the texts asked for were those of them
   * not in `start`, and element `k` is not in the memo.
   */
  ghost predicate StoppedAt(items: seq<string>, k: nat, start: map<string, string>, base: seq<string>,
                            entries: map<string, string>, misses: seq<string>)
  {
    k < |items| && items[k] !in entries &&
    (forall x :: x in entries <==> x in start || x in items[..k]) &&
    misses == base + Fresh(items[..k], start.Keys)
  }

  /** After the list loop every element is seen, translated and, if it was new, asked for. */
  lemma ProgressDone(items: seq<string>, known: set<string>, start: map<string, string>, base: seq<string>,
                     entries: map<string, string>, misses: seq<string>, translated: seq<string>)
    requires Progress(items, |items|, known, start, base, entries, misses, translated)
    ensures |translated| == |items| && Grown(start, entries)
    ensures forall j :: 0 <= j < |items| ==> items[j] in entries && translated[j] == entries[items[j]]
    ensures misses == base + Fresh(items, known)
  {
    assert items[..|items|] == items;
  }

  /** One turn of the list loop, on the memo's contents before and after the element is resolved. */
  lemma ResolveStep(items: seq<string>, i: nat, known: set<string>, start: map<string, string>, base: seq<string>,
                    entries: map<string, string>, misses: seq<string>,
                    entries': map<string, string>, misses': seq<string>, translated: seq<string>, v: string)
    requires i < |items| && Progress(items, i, known, start, base, entries, misses, translated)
    requires Grown(entries, entries') && forall x :: x in entries' <==> x in entries || x == items[i]
    requires items[i] in entries' && entries'[items[i]] == v
    requires items[i] in entries ==> misses' == misses
    requires items[i] !in entries ==> misses' == misses + [items[i]]
    ensures Progress(items, i + 1, known, start, base, entries', misses', translated + [v])
  {
    FreshSnoc(items, known, i);
    PrefixMembers(items, i);
  }

  lemma PrefixMembers(items: seq<string>, i: nat)
    requires i < |items|
    ensures forall x :: x in items[..i + 1] <==> x in items[..i] || x == items[i]
  {
    assert items[..i + 1] == items[..i] + [items[i]];
  }

  /** Each text is sent once for the whole run, however often it appears. */
  lemma FreshExample(a: string, b: string, c: string)
    requires a != b && a != c && b != c
    ensures Fresh([a, b, a, c, b], {c}) == [a, b]
  {
    FreshExampleHead(a, b, c);
    FreshPush([a, b, a], c, {c});
    assert [a, b, a] + [c] == [a, b, a, c];
    FreshPush([a, b, a, c], b, {c});
    assert [a, b, a, c] + [b] == [a, b, a, c, b];
  }

  lemma FreshExampleHead(a: string, b: string, c: string)
    requires a != b && a != c && b != c
    ensures Fresh([a, b, a], {c}) == [a, b]
  {
    FreshOne(a, {c});
    FreshPush([a], b, {c});
    assert [a] + [b] == [a, b];
    FreshPush([a, b], a, {c});
    assert [a, b] + [a] == [a, b, a];
  }

  /** A text appended after `items` is sent exactly when it is neither known nor among them. */
  lemma FreshPush(items: seq<string>, x: string, known: set<string>)
    ensures Fresh(items + [x], known) ==
      if x in known || x in items then Fresh(items, known) else Fresh(items, known) + [x]
  {
    assert (items + [x])[..|items|] == items;
  }

  /** The leaf with every text replaced by its memoised translation. */
  function Translated(v: Value, m: map<string, string>): (r: Value)
    requires IsLeaf(v) && forall x :: x in Texts(v) ==> x in m
    ensures r.Str? <==> v.Str?
    ensures IsLeaf(r) && |Texts(r)| == |Texts(v)|
    ensures forall i :: 0 <= i < |Texts(v)| ==> Texts(r)[i] == m[Texts(v)[i]]
  {
    if v.Str? then Str(m[v.text])
    else Lst(seq(|v.items|, i requires 0 <= i < |v.items| => m[v.items[i]]))
  }

  /** A list whose every element is the memoised translation of its text is the translated leaf. */
  lemma TranslatedList(items: seq<string>, m: map<string, string>, translated: seq<string>)
    requires |translated| == |items|
    requires forall j :: 0 <= j < |items| ==> items[j] in m && translated[j] == m[items[j]]
    ensures forall x :: x in items ==> x in m
    ensures Translated(Lst(items), m) == Lst(translated)
  {
    assert Translated(Lst(items), m).items == translated;
  }

  /** Equal texts get equal translations, within a list and across calls. */
  lemma TranslatedConsistent(v: Value, w: Value, m: map<string, string>, i: nat, j: nat)
    requires IsLeaf(v) && forall x :: x in Texts(v) ==> x in m
    requires IsLeaf(w) && forall x :: x in Texts(w) ==> x in m
    requires i < |Texts(v)| && j < |Texts(w)| && Texts(v)[i] == Texts(w)[j]
    ensures Texts(Translated(v, m))[i] == Texts(Translated(w, m))[j]
  {
  }

  /** A memo that only grew translates a leaf as before. */
  lemma TranslatedGrown(v: Value, m: map<string, string>, m': map<string, string>)
    requires IsLeaf(v) && forall x :: x in Texts(v) ==> x in m
    requires forall x :: x in m ==> x in m' && m'[x] == m[x]
    ensures Translated(v, m') == Translated(v, m)
  {
  }

  /** `m'` keeps every entry of `m`: entries are added, never overwritten or removed. */
  ghost predicate Grown<V>(m: map<string, V>, m': map<string, V>) {
    forall x :: x in m ==> x in m' && m'[x] == m[x]
  }

  /** What follows a prefix. */
  lemma DropPrefix<T>(a: seq<T>, b: seq<T>)
    ensures (a + b)[|a|..] == b
  {
  }

  /**
   * Where a memoised translation came from: the client that answered it,
   * that client's request log once the answer was in, and the index of the
   * request in that log.
   */
  datatype Origin = Origin(client: DeeplClient, log: seq<Request>, index: nat)

  /** The origin of memoised text `x`. */
  ghost function SourceOf(origins: map<string, Origin>, x: string): Origin
    requires x in origins
  {
    origins[x]
  }

  /**
   * Every translation in `entries` is what one of `clients` was answered,
   * for that text between the two languages, by the request `origins` names.
   * (The trigger keeps the solver from unfolding every answer wherever a
   * memoised text is mentioned.)
   */
  ghost predicate Sourced(entries: map<string, string>, origins: map<string, Origin>, clients: seq<DeeplClient>,
                          sourceLanguage: string, targetLanguage: string)
  {
    entries.Keys <= origins.Keys &&
    forall x {:trigger SourceOf(origins, x)} :: x in entries ==>
      x in origins && SourceOf(origins, x).client in clients &&
      SourceOf(origins, x).client.AnsweredAt(SourceOf(origins, x).log, SourceOf(origins, x).index,
                                             x, sourceLanguage, targetLanguage, entries[x])
  }

  /** A new entry whose translation its origin answered keeps the memo sourced. */
  lemma SourcedInsert(entries: map<string, string>, origins: map<string, Origin>, clients: seq<DeeplClient>,
                      sourceLanguage: string, targetLanguage: string, text: string, v: string, o: Origin)
    requires Sourced(entries, origins, clients, sourceLanguage, targetLanguage)
    requires o.client in clients && o.client.AnsweredAt(o.log, o.index, text, sourceLanguage, targetLanguage, v)
    ensures Sourced(entries[text := v], origins[text := o], clients, sourceLanguage, targetLanguage)
  {
    forall x {:trigger SourceOf(origins[text := o], x)} | x in entries[text := v]
      ensures x in origins[text := o] && SourceOf(origins[text := o], x).client in clients &&
        SourceOf(origins[text := o], x).client.AnsweredAt(SourceOf(origins[text := o], x).log, SourceOf(origins[text := o], x).index,
                                                          x, sourceLanguage, targetLanguage, entries[text := v][x])
    {
      if x != text {
        assert SourceOf(origins, x) == SourceOf(origins[text := o], x);
      }
    }
  }

  /** How many of `texts` were answered by a request of `c`. */
  ghost function SentBy(texts: seq<string>, origins: map<string, Origin>, c: DeeplClient): nat
  {
    if texts == [] then 0
    else
      var last := texts[|texts| - 1];
      SentBy(texts[..|texts| - 1], origins, c) + if last in origins && origins[last].client == c then 1 else 0
  }

  /** The count over two runs of texts joined is the sum of their counts. */
  lemma {:induction false} SentByAppend(texts: seq<string>, extra: seq<string>, origins: map<string, Origin>, c: DeeplClient)
    ensures SentBy(texts + extra, origins, c) == SentBy(texts, origins, c) + SentBy(extra, origins, c)
    decreases |extra|
  {
    if extra == [] {
      assert texts + extra == texts;
    } else {
      var rest := extra[..|extra| - 1];
      assert (texts + extra)[..|texts + extra| - 1] == texts + rest;
      assert (texts + extra)[|texts + extra| - 1] == extra[|extra| - 1];
      SentByAppend(texts, rest, origins, c);
    }
  }

  /** Adding origins for other texts does not change the count. */
  lemma {:induction false} SentByGrown(texts: seq<string>, origins: map<string, Origin>, origins': map<string, Origin>, c: DeeplClient)
    requires Grown(origins, origins') && forall x :: x in texts ==> x in origins
    ensures SentBy(texts, origins', c) == SentBy(texts, origins, c)
    decreases |texts|
  {
    if texts != [] {
      var rest := texts[..|texts| - 1];
      assert forall x :: x in rest ==> x in texts;
      assert texts[|texts| - 1] in texts;
      SentByGrown(rest, origins, origins', c);
    }
  }

  /**
   * One more turn for one client: the translate requests it sent since
   * `start` keep matching the texts it answered, once the texts of the turn
   * are added.
   */
  lemma CountStep(start: seq<Request>, mid: seq<Request>, log: seq<Request>, sent: seq<string>, extra: seq<string>,
                  origins: map<string, Origin>, origins': map<string, Origin>, c: DeeplClient)
    requires start <= mid <= log
    requires Grown(origins, origins') && forall x :: x in sent ==> x in origins
    requires TranslateRequests(mid[|start|..]) == SentBy(sent, origins, c)
    requires TranslateRequests(log[|mid|..]) == SentBy(extra, origins', c)
    ensures TranslateRequests(log[|start|..]) == SentBy(sent + extra, origins', c)
  {
    TranslateRequestsAppend(mid[|start|..], log[|mid|..]);
    assert log[|start|..] == mid[|start|..] + log[|mid|..];
    SentByAppend(sent, extra, origins', c);
    SentByGrown(sent, origins, origins', c);
  }

  /**
   * The translator was asked for each text the memo holds, and for no
   * other, as many times as the memo holds texts, so once each (see
   * `AskedOnce`); each text has an origin.
   */
  ghost predicate Consistent(entries: map<string, string>, misses: seq<string>, origins: map<string, Origin>) {
    |misses| == |entries| &&
    (forall x :: x in entries <==> x in misses) &&
    (forall x :: x in origins <==> x in entries)
  }

  /** The texts of a sequence. */
  ghost function Elements(s: seq<string>): set<string> {
    set x | x in s
  }

  /** A sequence has at most as many distinct texts as it is long. */
  lemma {:induction false} ElementsBound(s: seq<string>)
    ensures |Elements(s)| <= |s|
  {
    if s != [] {
      var init := s[..|s| - 1];
      ElementsBound(init);
      assert Elements(s) == Elements(init) + {s[|s| - 1]};
    }
  }

  /** A repeated text leaves a sequence with fewer distinct texts than it is long. */
  lemma RepeatShrinks(s: seq<string>, i: nat, j: nat)
    requires i < j < |s| && s[i] == s[j]
    ensures |Elements(s)| < |s|
  {
    var rest := s[..j] + s[j + 1..];
    assert s == s[..j] + [s[j]] + s[j + 1..];
    assert Elements(s) == Elements(rest);
    ElementsBound(rest);
  }

  /** A sequence as long as the set of its texts holds each text once. */
  lemma AskedOnce(misses: seq<string>, keys: set<string>)
    requires |misses| == |keys| && forall x :: x in keys <==> x in misses
    ensures forall i, j :: 0 <= i < j < |misses| ==> misses[i] != misses[j]
  {
    assert Elements(misses) == keys;
    forall i, j | 0 <= i < j < |misses|
      ensures misses[i] != misses[j]
    {
      if misses[i] == misses[j] {
        RepeatShrinks(misses, i, j);
      }
    }
  }

  /** Storing a new text keeps the memo consistent and grows it. */
  lemma LearnKeeps(entries: map<string, string>, misses: seq<string>, origins: map<string, Origin>,
                   text: string, v: string, o: Origin)
    requires Consistent(entries, misses, origins) && text !in entries
    ensures Consistent(entries[text := v], misses + [text], origins[text := o])
    ensures Grown(entries, entries[text := v]) && Grown(origins, origins[text := o])
  {
  }

  /** A single text counts for the client that answered it. */
  lemma SentByOne(text: string, origins: map<string, Origin>, c: DeeplClient)
    ensures SentBy([text], origins, c) == if text in origins && origins[text].client == c then 1 else 0
  {
    assert [text][..0] == [];
  }

  /** The `target_translations` dict that the calls for one file and one target language share. */
  class TranslationCache {
    var entries: map<string, string>
    /** Every text the translator answered, in the order it was asked. */
    ghost var misses: seq<string>
    /** The request that answered each text. */
    ghost var origins: map<string, Origin>

    /**
     * The translator was asked once for each text the memo holds, and for
     * no other, and each text has the request that answered it.
     */
    ghost predicate Valid()
      reads this
    {
      Consistent(entries, misses, origins)
    }

    /** `target_translations = {}`. */
    constructor()
      ensures entries == map[] && misses == [] && origins == map[] && Valid()
    {
      entries := map[];
      misses := [];
      origins := map[];
    }

    /**
     * `target_translations[text] = translation`, noting the request that
     * answered it: a memo whose translations `clients` answered stays so.
     */
    method Store(text: string, translation: string, ghost origin: Origin,
                 ghost clients: seq<DeeplClient>, ghost sourceLanguage: string, ghost targetLanguage: string)
      requires Valid() && text !in entries
      requires Sourced(entries, origins, clients, sourceLanguage, targetLanguage)
      requires origin.client in clients
      requires origin.client.AnsweredAt(origin.log, origin.index, text, sourceLanguage, targetLanguage, translation)
      modifies this
      ensures entries == old(entries)[text := translation] && misses == old(misses) + [text]
      ensures origins == old(origins)[text := origin]
      ensures Valid() && Grown(old(entries), entries) && Grown(old(origins), origins)
      ensures Sourced(entries, origins, clients, sourceLanguage, targetLanguage)
    {
      SourcedInsert(entries, origins, clients, sourceLanguage, targetLanguage, text, translation, origin);
      LearnKeeps(entries, misses, origins, text, translation, origin);
      entries := entries[text := translation];
      misses := misses + [text];
      origins := origins[text := origin];
    }
  }

  /**
   * One text through the memo (lines 19-22 or 24-27): a hit returns the
   * stored translation and asks nobody; a miss asks the best client to
   * translate the text alone and stores its answer, with the request that
   * answered it. Clients' request logs only grow, and each client sent as
   * many translate requests as the new entries it answered.
   */
  method Resolve(text: string, cache: TranslationCache, clients: seq<DeeplClient>, sourceLanguage: string, targetLanguage: string)
    returns (r: Result<string, ClientError>)
    requires cache.Valid() && AllValid(clients)
    requires Sourced(cache.entries, cache.origins, clients, sourceLanguage, targetLanguage)
    modifies cache, clients
    ensures cache.Valid() && AllValid(clients)
    ensures Sourced(cache.entries, cache.origins, clients, sourceLanguage, targetLanguage)
    ensures Grown(old(cache.entries), cache.entries) && Grown(old(cache.origins), cache.origins)
    ensures forall c :: c in clients ==> old(c.requests) <= c.requests
    ensures text in old(cache.entries) ==>
      r == Ok(old(cache.entries)[text]) && cache.entries == old(cache.entries) && cache.misses == old(cache.misses) &&
      forall c :: c in clients ==> c.requests == old(c.requests)
    ensures text !in old(cache.entries) ==>
      BestAnswer(Collect(old(Outcomes(clients))), clients, text, sourceLanguage, targetLanguage, r)
    ensures text !in old(cache.entries) && r.Ok? ==>
      cache.entries == old(cache.entries)[text := r.value] && cache.misses == old(cache.misses) + [text]
    ensures r.Ok? ==> forall c :: c in clients ==>
      TranslateRequests(c.requests[|old(c.requests)|..]) == SentBy(cache.misses[|old(cache.misses)|..], cache.origins, c)
    ensures r.Err? ==> text !in old(cache.entries) && cache.entries == old(cache.entries) && cache.misses == old(cache.misses)
    ensures r.Ok? ==> forall x :: x in cache.entries <==> x in old(cache.entries) || x == text
    ensures r.Ok? ==> text in cache.entries && cache.entries[text] == r.value
  {
    if text in cache.entries {
      assert cache.misses[|cache.misses|..] == [];
      forall c | c in clients
        ensures TranslateRequests(c.requests[|c.requests|..]) == 0
      {
        assert c.requests[|c.requests|..] == [];
      }
      return Ok(cache.entries[text]);
    }
    r := Learn(text, cache, clients, sourceLanguage, targetLanguage);
  }

  /**
   * A miss (lines 21-22 or 26-27): the best client is asked to translate the
   * text alone, and its answer is stored with the request that answered it.
   */
  method Learn(text: string, cache: TranslationCache, clients: seq<DeeplClient>, sourceLanguage: string, targetLanguage: string)
    returns (r: Result<string, ClientError>)
    requires cache.Valid() && AllValid(clients) && text !in cache.entries
    requires Sourced(cache.entries, cache.origins, clients, sourceLanguage, targetLanguage)
    modifies cache, clients
    ensures cache.Valid() && AllValid(clients)
    ensures Sourced(cache.entries, cache.origins, clients, sourceLanguage, targetLanguage)
    ensures Grown(old(cache.entries), cache.entries) && Grown(old(cache.origins), cache.origins)
    ensures forall c :: c in clients ==> old(c.requests) <= c.requests
    ensures BestAnswer(Collect(old(Outcomes(clients))), clients, text, sourceLanguage, targetLanguage, r)
    ensures r.Ok? ==> cache.entries == old(cache.entries)[text := r.value] && cache.misses == old(cache.misses) + [text]
    ensures r.Ok? ==> forall c :: c in clients ==>
      TranslateRequests(c.requests[|old(c.requests)|..]) == SentBy(cache.misses[|old(cache.misses)|..], cache.origins, c)
    ensures r.Err? ==> cache.entries == old(cache.entries) && cache.misses == old(cache.misses)
  {
    var translation;
    ghost var origin;
    translation, origin := AskBestClient(text, clients, sourceLanguage, targetLanguage);
    if translation.Err? {
      return Err(translation.error);
    }
    ghost var origins := cache.origins;
    forall c | c in clients
      ensures SentBy([text], origins[text := origin.value], c) == if c == origin.value.client then 1 else 0
    {
      SentByOne(text, origins[text := origin.value], c);
    }
    cache.Store(text, translation.value, origin.value, clients, sourceLanguage, targetLanguage);
    assert cache.misses[|old(cache.misses)|..] == [text];
    return Ok(translation.value);
  }

  /**
   * What asking the best client for `text` comes to, when `usage()` answered
   * `asked` for the clients beforehand: the first error among those
   * answers; `UsageError` when no quota is positive; otherwise what the
   * chosen client's translation of the text alone makes of its quota
   * (`AnsweredOne`), as its request log shows it now.
   */
  ghost predicate BestAnswer(asked: Result<seq<int>, ClientError>, clients: seq<DeeplClient>, text: string,
                             sourceLanguage: string, targetLanguage: string, r: Result<string, ClientError>)
    reads clients
  {
    (asked.Err? ==> r == Err(asked.error)) &&
    (asked.Ok? && BestIndex(asked.value).None? ==> r == Err(UsageError(NoRemainingCharacters))) &&
    (asked.Ok? && BestIndex(asked.value).Some? ==>
      var b := BestIndex(asked.value).value;
      b < |clients| && clients[b].isApiKeyFree.Some? &&
      clients[b].AnsweredOne(clients[b].requests, clients[b].isApiKeyFree.value, asked.value[b],
                             text, sourceLanguage, targetLanguage, r))
  }

  /**
   * `best_client(clients).translate(texts=[text], ...)[0]`: the text goes,
   * alone, to the client `best_client` chooses from the quotas the clients
   * had, and what comes back is `BestAnswer`; a success is the answer to a
   * request `origin` names, sent by this call. That client sent one
   * translate request, the others none.
   */
  method AskBestClient(text: string, clients: seq<DeeplClient>, sourceLanguage: string, targetLanguage: string)
    returns (r: Result<string, ClientError>, ghost origin: Option<Origin>)
    requires AllValid(clients)
    modifies clients
    ensures AllValid(clients)
    ensures forall c :: c in clients ==> old(c.requests) <= c.requests
    ensures BestAnswer(Collect(old(Outcomes(clients))), clients, text, sourceLanguage, targetLanguage, r)
    ensures r.Ok? ==>
      var asked := Collect(old(Outcomes(clients)));
      asked.Ok? && BestIndex(asked.value).Some? && origin.Some? &&
      origin.value.client == clients[BestIndex(asked.value).value]
    ensures r.Ok? ==>
      origin.Some? && origin.value.client in clients && origin.value.log == origin.value.client.requests &&
      |old(origin.value.client.requests)| <= origin.value.index &&
      origin.value.client.AnsweredAt(origin.value.log, origin.value.index, text, sourceLanguage, targetLanguage, r.value)
    ensures r.Ok? ==> forall c :: c in clients ==>
      TranslateRequests(c.requests[|old(c.requests)|..]) == if c == origin.value.client then 1 else 0
  {
    origin := None;
    ghost var asked := Collect(Outcomes(clients));
    var best := BestClient(clients);
    if best.Err? {
      return Err(best.error), origin;
    }
    var client := best.value;
    ghost var b := BestIndex(asked.value).value;
    ghost var log, tier, left := client.requests, client.isApiKeyFree.value, asked.value[b];
    assert client == clients[b] && client.Valid() && client.remainingCharacters == Some(left);
    assert log + [] == log;
    client.PostAllOne(log, tier, left, text, sourceLanguage, targetLanguage);
    label chosen:
    var answer;
    ghost var at, quota, u;
    answer, at, quota, u := client.Translate([text], sourceLanguage, targetLanguage);
    forall c | c in clients
      ensures c.Valid() && old(c.requests) <= c.requests
      ensures answer.Ok? ==> TranslateRequests(c.requests[|old(c.requests)|..]) == if c == client then 1 else 0
    {
      assert OnlyUsage(old(c.requests), old@chosen(c.requests));
      TranslateRequestsNone(old(c.requests), old@chosen(c.requests));
      if c != client {
        assert old@chosen(c.Valid());
      } else if answer.Ok? {
        TranslateRequestsStep(old(c.requests), old@chosen(c.requests), c.requests);
      }
    }
    if answer.Err? {
      return Err(answer.error), origin;
    }
    assert client.AnsweredAt(client.requests, at[0], [text][0], sourceLanguage, targetLanguage, answer.value[0]);
    origin := Some(Origin(client, client.requests, at[0]));
    return Ok(answer.value[0]), origin;
  }

  /**
   * `generate_target_translation`: a string is resolved through the memo; a
   * list is resolved element by element into a new list. The translator is
   * asked for each text the memo did not hold, once, in order, and each
   * client sent exactly as many translate requests as the new texts it
   * answered.
   */
  method GenerateTargetTranslation(value: Value, cache: TranslationCache, clients: seq<DeeplClient>,
                                   sourceLanguage: string, targetLanguage: string)
    returns (r: Result<Value, ClientError>)
    requires IsLeaf(value)
    requires cache.Valid() && AllValid(clients)
    requires Sourced(cache.entries, cache.origins, clients, sourceLanguage, targetLanguage)
    modifies cache, clients
    ensures cache.Valid() && AllValid(clients)
    ensures Sourced(cache.entries, cache.origins, clients, sourceLanguage, targetLanguage)
    ensures Grown(old(cache.entries), cache.entries) && Grown(old(cache.origins), cache.origins)
    ensures forall c :: c in clients ==> old(c.requests) <= c.requests
    ensures r.Ok? ==>
      (forall x :: x in Texts(value) ==> x in cache.entries) &&
      r.value == Translated(value, cache.entries) &&
      cache.misses == old(cache.misses) + Fresh(Texts(value), old(cache.entries).Keys)
    ensures r.Ok? ==> forall c :: c in clients ==>
      TranslateRequests(c.requests[|old(c.requests)|..]) == SentBy(Fresh(Texts(value), old(cache.entries).Keys), cache.origins, c)
    ensures r.Err? && value.Str? ==>
      value.text !in old(cache.entries) && cache.entries == old(cache.entries) && cache.misses == old(cache.misses) &&
      BestAnswer(Collect(old(Outcomes(clients))), clients, value.text, sourceLanguage, targetLanguage, Err(r.error))
    ensures r.Err? && value.Lst? ==>
      exists k :: StoppedAt(value.items, k, old(cache.entries), old(cache.misses), cache.entries, cache.misses)
  {
    if value.Str? {
      var one := Resolve(value.text, cache, clients, sourceLanguage, targetLanguage);
      if one.Err? {
        return Err(one.error);
      }
      ghost var sent := Fresh([value.text], old(cache.entries).Keys);
      FreshOne(value.text, old(cache.entries).Keys);
      DropPrefix(old(cache.misses), sent);
      assert cache.misses == old(cache.misses) + sent;
      return Ok(Str(one.value));
    }
    var translated := ResolveAll(value.items, cache, clients, sourceLanguage, targetLanguage);
    if translated.Err? {
      return Err(translated.error);
    }
    TranslatedList(value.items, cache.entries, translated.value);
    return Ok(Lst(translated.value));
  }

  /** The list branch (lines 17-22): resolve each element in turn into a new list. */
  method ResolveAll(items: seq<string>, cache: TranslationCache, clients: seq<DeeplClient>,
                    sourceLanguage: string, targetLanguage: string)
    returns (r: Result<seq<string>, ClientError>)
    requires cache.Valid() && AllValid(clients)
    requires Sourced(cache.entries, cache.origins, clients, sourceLanguage, targetLanguage)
    modifies cache, clients
    ensures cache.Valid() && AllValid(clients)
    ensures Sourced(cache.entries, cache.origins, clients, sourceLanguage, targetLanguage)
    ensures Grown(old(cache.entries), cache.entries) && Grown(old(cache.origins), cache.origins)
    ensures forall c :: c in clients ==> old(c.requests) <= c.requests
    ensures r.Ok? ==>
      |r.value| == |items| &&
      (forall j :: 0 <= j < |items| ==> items[j] in cache.entries && r.value[j] == cache.entries[items[j]]) &&
      cache.misses == old(cache.misses) + Fresh(items, old(cache.entries).Keys)
    ensures r.Ok? ==> forall c :: c in clients ==>
      TranslateRequests(c.requests[|old(c.requests)|..]) == SentBy(Fresh(items, old(cache.entries).Keys), cache.origins, c)
    ensures r.Err? ==> exists k :: StoppedAt(items, k, old(cache.entries), old(cache.misses), cache.entries, cache.misses)
  {
    ghost var known := cache.entries.Keys;
    ghost var logs := map c | c in clients :: c.requests;
    var translated: seq<string> := [];
    ProgressStart(items, cache.entries, cache.misses);
    forall c | c in clients
      ensures TranslateRequests(c.requests[|logs[c]|..]) == 0
    {
      assert c.requests[|c.requests|..] == [];
    }
    for i := 0 to |items|
      invariant cache.Valid() && AllValid(clients)
      invariant Sourced(cache.entries, cache.origins, clients, sourceLanguage, targetLanguage)
      invariant Grown(old(cache.origins), cache.origins)
      invariant Progress(items, i, known, old(cache.entries), old(cache.misses), cache.entries, cache.misses, translated)
      invariant forall c :: c in clients ==>
        c in logs && logs[c] <= c.requests &&
        TranslateRequests(c.requests[|logs[c]|..]) == SentBy(Fresh(items[..i], known), cache.origins, c)
    {
      var next := ResolveNext(items, i, translated, cache, clients, sourceLanguage, targetLanguage,
                              known, old(cache.entries), old(cache.misses), logs);
      if next.Err? {
        assert StoppedAt(items, i, old(cache.entries), old(cache.misses), cache.entries, cache.misses);
        return Err(next.error);
      }
      translated := next.value;
    }
    ProgressDone(items, known, old(cache.entries), old(cache.misses), cache.entries, cache.misses, translated);
    assert items[..|items|] == items;
    return Ok(translated);
  }

  /**
   * One turn of the list loop (lines 19-22): element `i` is resolved through
   * the memo and its translation appended to those of the elements before
   * it; each client's translate requests since `logs` keep matching the
   * texts it answered.
   */
  method ResolveNext(items: seq<string>, i: nat, translated: seq<string>, cache: TranslationCache, clients: seq<DeeplClient>,
                     sourceLanguage: string, targetLanguage: string, ghost known: set<string>,
                     ghost start: map<string, string>, ghost base: seq<string>, ghost logs: map<DeeplClient, seq<Request>>)
    returns (r: Result<seq<string>, ClientError>)
    requires i < |items|
    requires cache.Valid() && AllValid(clients)
    requires Sourced(cache.entries, cache.origins, clients, sourceLanguage, targetLanguage)
    requires Progress(items, i, known, start, base, cache.entries, cache.misses, translated)
    requires forall c :: c in clients ==>
      c in logs && logs[c] <= c.requests &&
      TranslateRequests(c.requests[|logs[c]|..]) == SentBy(Fresh(items[..i], known), cache.origins, c)
    modifies cache, clients
    ensures cache.Valid() && AllValid(clients)
    ensures Sourced(cache.entries, cache.origins, clients, sourceLanguage, targetLanguage)
    ensures Grown(start, cache.entries) && Grown(old(cache.origins), cache.origins)
    ensures forall c :: c in clients ==> c in logs && logs[c] <= c.requests
    ensures r.Ok? ==> Progress(items, i + 1, known, start, base, cache.entries, cache.misses, r.value)
    ensures r.Err? ==>
      items[i] !in old(cache.entries) && cache.entries == old(cache.entries) && cache.misses == old(cache.misses) &&
      BestAnswer(Collect(old(Outcomes(clients))), clients, items[i], sourceLanguage, targetLanguage, Err(r.error))
    ensures r.Ok? ==> forall c :: c in clients ==>
      TranslateRequests(c.requests[|logs[c]|..]) == SentBy(Fresh(items[..i + 1], known), cache.origins, c)
  {
    ghost var entries, misses, origins := cache.entries, cache.misses, cache.origins;
    var one := Resolve(items[i], cache, clients, sourceLanguage, targetLanguage);
    if one.Err? {
      return Err(one.error);
    }
    ResolveStep(items, i, known, start, base, entries, misses, cache.entries, cache.misses, translated, one.value);
    FreshCharacterised(items[..i], known);
    ghost var extra: seq<string> := if items[i] in entries then [] else [items[i]];
    DropPrefix(misses, extra);
    assert cache.misses == misses + extra;
    assert Fresh(items[..i], known) + [] == Fresh(items[..i], known);
    FreshSnoc(items, known, i);
    forall c | c in clients
      ensures TranslateRequests(c.requests[|logs[c]|..]) == SentBy(Fresh(items[..i + 1], known), cache.origins, c)
    {
      CountStep(logs[c], old(c.requests), c.requests, Fresh(items[..i], known), extra, origins, cache.origins, c);
    }
    return Ok(translated + [one.value]);
  }
}
