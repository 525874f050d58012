/**
 * The body of the main script for one source file and one target language:
 * derive the target file's path, diff the source tree against the target
 * tree, translate every missing leaf through a memo that starts empty, and
 * merge each translation into the target tree. Reading and writing the files
 * stays outside: the trees come in and the updated target tree goes out.
 */
module Sync {
  import opened Wrappers
  import opened Text
  import opened Tree
  import opened Diff
  import opened Merge
  import opened ClientBase
  import opened Deepl
  import opened Memo

  const LanguagePlaceholder: string := "{language}"

  /** `directory.replace("{language}", language)`. */
  function DirectoryFor(template: string, language: string): string {
    ReplaceAll(template, LanguagePlaceholder, language)
  }

  /** A directory template without the placeholder names the same directory for every language. */
  lemma DirectoryWithoutPlaceholder(template: string, language: string)
    requires !Occurs(template, LanguagePlaceholder)
    ensures DirectoryFor(template, language) == template
  {
    ReplaceAbsent(template, LanguagePlaceholder, language);
  }

  /**
   * The target file of a source file: every occurrence of the source
   * directory (for the source language) in the path becomes the target
   * directory (for the target language).
   */
  function TargetPath(sourceFile: string, sourceTemplate: string, targetTemplate: string,
                      sourceLanguage: string, targetLanguage: string): string
  {
    ReplaceAll(sourceFile, DirectoryFor(sourceTemplate, sourceLanguage), DirectoryFor(targetTemplate, targetLanguage))
  }

  /**
   * A file under the source directory, whose remaining path does not repeat
   * that directory, lands at the same place under the target directory.
   */
  lemma TargetPathUnderSource(rest: string, sourceTemplate: string, targetTemplate: string,
                              sourceLanguage: string, targetLanguage: string)
    requires DirectoryFor(sourceTemplate, sourceLanguage) != []
    requires !Occurs(rest, DirectoryFor(sourceTemplate, sourceLanguage))
    ensures TargetPath(DirectoryFor(sourceTemplate, sourceLanguage) + rest, sourceTemplate, targetTemplate,
                       sourceLanguage, targetLanguage)
         == DirectoryFor(targetTemplate, targetLanguage) + rest
  {
    var source := DirectoryFor(sourceTemplate, sourceLanguage);
    var target := DirectoryFor(targetTemplate, targetLanguage);
    ReplaceLeading(rest, source, target);
    ReplaceAbsent(rest, source, target);
  }

  // ---------------------------------------------------------------------------
  // The merge loop
  // ---------------------------------------------------------------------------

  /** `x` is one of the texts of the source leaf at `p`. */
  ghost predicate LeafText(source: Entries, p: Path, x: string) {
    LeafAt(source, p) && x in Texts(Lookup(source, p).value)
  }

  /** The translation of the source leaf at `p` through the memo `m`, if `m` holds all its texts. */
  ghost predicate TranslatedAt(source: Entries, t: Entries, p: Path, m: map<string, string>) {
    LeafAt(source, p) && (forall x :: x in Texts(Lookup(source, p).value) ==> x in m) &&
    Lookup(t, p) == Some(Translated(Lookup(source, p).value, m))
  }

  /** Every source leaf still absent from `t` is among `pending`. */
  ghost predicate Covered(source: Entries, t: Entries, pending: seq<Path>) {
    forall q :: LeafAt(source, q) && !Has(t, q) ==> q in pending
  }

  /** Every path that parts ways with all of `done` leads where it led in `target`. */
  ghost predicate Untouched(target: Entries, t: Entries, done: seq<Path>) {
    forall q :: (forall p :: p in done ==> Diverge(q, p)) ==> Lookup(t, q) == Lookup(target, q)
  }

  /** Every text the translator was asked for belongs to a leaf in `done`. */
  ghost predicate AskedFor(source: Entries, done: seq<Path>, asked: seq<string>) {
    forall x :: x in asked ==> exists p :: p in done && LeafText(source, p, x)
  }

  /** A source whose every leaf is present in the target has nothing missing. */
  lemma NothingMissing(source: Entries, t: Entries)
    requires WellFormed(source) && Compatible(source, t)
    requires Covered(source, t, [])
    ensures FindMissingKeys(source, t, []) == []
  {
    var missing := FindMissingKeys(source, t, []);
    if missing != [] {
      MissingKeysCharacterised(source, t, missing[0]);
      assert false;
    }
  }

  /**
   * What the loop of `FillTarget` keeps after merging the first `i` missing
   * paths into `t`: the paths not yet merged cover every absent leaf, the
   * merged ones hold their translation through the memo, every other path is
   * as in `target`, and every text asked for belongs to a merged leaf.
   */
  ghost predicate Filled(source: Entries, target: Entries, missing: seq<Path>, i: nat, t: Entries,
                         entries: map<string, string>, misses: seq<string>)
  {
    i <= |missing| && Compatible(source, t) && Covered(source, t, missing[i..]) &&
    (forall j :: 0 <= j < i ==> TranslatedAt(source, t, missing[j], entries)) &&
    Untouched(target, t, missing[..i]) && AskedFor(source, missing[..i], misses)
  }

  /** Before the loop: all missing leaves are pending, nothing is merged or asked. */
  lemma LoopStart(source: Entries, target: Entries)
    requires WellFormed(source) && Compatible(source, target)
    ensures Filled(source, target, FindMissingKeys(source, target, []), 0, target, map[], [])
  {
    var missing := FindMissingKeys(source, target, []);
    forall q | LeafAt(source, q) && !Has(target, q)
      ensures q in missing
    {
      MissingKeysCharacterised(source, target, q);
    }
    assert missing[0..] == missing && missing[..0] == [];
  }

  /**
   * After the loop: nothing is missing any more, every missing leaf holds its
   * translation, every other path is as before, and the texts asked for, once
   * each, all belong to missing leaves.
   */
  lemma LoopDone(source: Entries, target: Entries, missing: seq<Path>, t: Entries,
                 entries: map<string, string>, misses: seq<string>)
    requires WellFormed(source) && Compatible(source, target) && missing == FindMissingKeys(source, target, [])
    requires Filled(source, target, missing, |missing|, t, entries, misses)
    requires |misses| == |entries| && forall x :: x in entries <==> x in misses
    ensures Compatible(source, t) && FindMissingKeys(source, t, []) == []
    ensures forall q :: q in missing ==> TranslatedAt(source, t, q, entries)
    ensures Untouched(target, t, missing)
    ensures (forall i, j :: 0 <= i < j < |misses| ==> misses[i] != misses[j]) && AskedFor(source, missing, misses)
  {
    assert missing[|missing|..] == [] && missing[..|missing|] == missing;
    NothingMissing(source, t);
    AskedOnce(misses, entries.Keys);
    forall q | q in missing
      ensures TranslatedAt(source, t, q, entries)
    {
      var j :| 0 <= j < |missing| && missing[j] == q;
    }
  }

  /** The path merged in a turn of the loop leads to a source leaf. */
  lemma MissingIsLeaf(source: Entries, target: Entries, missing: seq<Path>, i: nat)
    requires WellFormed(source) && Compatible(source, target)
    requires missing == FindMissingKeys(source, target, []) && i < |missing|
    ensures |missing[i]| > 0 && LeafAt(source, missing[i])
  {
    MissingKeysCharacterised(source, target, missing[i]);
  }

  /** The merge of one translated leaf keeps the target compatible and covers that leaf. */
  lemma MergeStepCovers(source: Entries, t: Entries, missing: seq<Path>, i: nat, v: Value)
    requires WellFormed(source) && Compatible(source, t)
    requires i < |missing| && |missing[i]| > 0 && LeafAt(source, missing[i])
    requires Covered(source, t, missing[i..])
    ensures Compatible(source, SetPath(t, missing[i], v))
    ensures Covered(source, SetPath(t, missing[i], v), missing[i + 1..])
  {
    var keys := missing[i];
    var t' := SetPath(t, keys, v);
    MergeKeepsCompatible(source, t, keys, v);
    forall q | LeafAt(source, q) && !Has(t', q)
      ensures q in missing[i + 1..]
    {
      MergeMakesPresent(t, keys, v);
      LeafPathNotAbove(source, keys, q);
      if Has(t, q) {
        MergeKeepsPresence(t, keys, v, q);
      }
      assert q in missing[i..] && q != keys;
      assert missing[i..] == [keys] + missing[i + 1..];
    }
  }

  /** The merge of one translated leaf keeps every earlier merge and holds the new translation. */
  lemma MergeStepKeeps(source: Entries, t: Entries, missing: seq<Path>, i: nat,
                       m: map<string, string>, m': map<string, string>, v: Value)
    requires i < |missing| && |missing[i]| > 0 && LeafAt(source, missing[i])
    requires forall j :: 0 <= j < i ==> TranslatedAt(source, t, missing[j], m)
    requires Grown(m, m')
    requires forall x :: x in Texts(Lookup(source, missing[i]).value) ==> x in m'
    requires v == Translated(Lookup(source, missing[i]).value, m')
    ensures forall j :: 0 <= j <= i ==> TranslatedAt(source, SetPath(t, missing[i], v), missing[j], m')
  {
    var keys := missing[i];
    var t' := SetPath(t, keys, v);
    MergeWritesValue(t, keys, v);
    forall j | 0 <= j <= i
      ensures TranslatedAt(source, t', missing[j], m')
    {
      var p := missing[j];
      if p != keys {
        assert TranslatedAt(source, t, p, m);
        LeafPathsDiverge(source, p, keys);
        MergeKeepsOthers(t, keys, v, p);
        TranslatedGrown(Lookup(source, p).value, m, m');
      }
    }
  }

  /** The merge of one leaf touches no path that parts ways with it. */
  lemma MergeStepUntouched(target: Entries, t: Entries, missing: seq<Path>, i: nat, v: Value)
    requires i < |missing| && |missing[i]| > 0
    requires Untouched(target, t, missing[..i])
    ensures Untouched(target, SetPath(t, missing[i], v), missing[..i + 1])
  {
    var keys := missing[i];
    assert missing[..i + 1] == missing[..i] + [keys];
    forall q | forall p :: p in missing[..i + 1] ==> Diverge(q, p)
      ensures Lookup(SetPath(t, keys, v), q) == Lookup(target, q)
    {
      assert keys in missing[..i + 1];
      assert forall p :: p in missing[..i] ==> p in missing[..i + 1];
      MergeKeepsOthers(t, keys, v, q);
    }
  }

  /** The texts asked for in one turn belong to the leaf merged in that turn. */
  lemma AskStep(source: Entries, missing: seq<Path>, i: nat, asked: seq<string>, known: set<string>)
    requires i < |missing| && LeafAt(source, missing[i])
    requires AskedFor(source, missing[..i], asked)
    ensures AskedFor(source, missing[..i + 1], asked + Fresh(Texts(Lookup(source, missing[i]).value), known))
  {
    var sent := Fresh(Texts(Lookup(source, missing[i]).value), known);
    FreshCharacterised(Texts(Lookup(source, missing[i]).value), known);
    assert missing[..i + 1] == missing[..i] + [missing[i]];
    forall x | x in asked + sent
      ensures exists p :: p in missing[..i + 1] && LeafText(source, p, x)
    {
      if x in asked {
        var p :| p in missing[..i] && LeafText(source, p, x);
        assert p in missing[..i + 1];
      } else {
        assert LeafText(source, missing[i], x);
      }
    }
  }

  /**
   * One turn of the loop in `FillTarget` (lines 45-55): translate the leaf at
   * the `i`-th missing path through the memo and merge the translation into
   * `t`. Every fact the loop keeps about the first `i` paths holds after it
   * for the first `i + 1`.
   */
  method FillNext(source: Entries, target: Entries, missing: seq<Path>, i: nat, t: Entries,
                  cache: TranslationCache, clients: seq<DeeplClient>, sourceLanguage: string, targetLanguage: string,
                  ghost logs: map<DeeplClient, seq<Request>>)
    returns (r: Result<Entries, ClientError>)
    requires WellFormed(source) && Compatible(source, target)
    requires missing == FindMissingKeys(source, target, []) && i < |missing|
    requires cache.Valid() && AllValid(clients)
    requires Sourced(cache.entries, cache.origins, clients, sourceLanguage, targetLanguage)
    requires Filled(source, target, missing, i, t, cache.entries, cache.misses)
    requires forall c :: c in clients ==>
      c in logs && logs[c] <= c.requests &&
      TranslateRequests(c.requests[|logs[c]|..]) == SentBy(cache.misses, cache.origins, c)
    modifies cache, clients
    ensures cache.Valid() && AllValid(clients)
    ensures Sourced(cache.entries, cache.origins, clients, sourceLanguage, targetLanguage)
    ensures forall c :: c in clients ==> c in logs && logs[c] <= c.requests
    ensures r.Ok? ==> Filled(source, target, missing, i + 1, r.value, cache.entries, cache.misses)
    ensures r.Ok? ==> forall c :: c in clients ==>
      TranslateRequests(c.requests[|logs[c]|..]) == SentBy(cache.misses, cache.origins, c)
    ensures r.Err? ==> exists x :: LeafText(source, missing[i], x) && x !in cache.entries
  {
    MissingIsLeaf(source, target, missing, i);
    var keys := missing[i];
    var value := Lookup(source, keys).value;
    ghost var before, asked, sources := cache.entries, cache.misses, cache.origins;
    var translation := GenerateTargetTranslation(value, cache, clients, sourceLanguage, targetLanguage);
    if translation.Err? {
      if value.Str? {
        assert LeafText(source, keys, value.text);
      } else {
        ghost var k: nat :| StoppedAt(value.items, k, before, asked, cache.entries, cache.misses);
        assert LeafText(source, keys, value.items[k]);
      }
      return Err(translation.error);
    }
    ghost var sent := Fresh(Texts(value), before.Keys);
    forall c | c in clients
      ensures TranslateRequests(c.requests[|logs[c]|..]) == SentBy(cache.misses, cache.origins, c)
    {
      CountStep(logs[c], old(c.requests), c.requests, asked, sent, sources, cache.origins, c);
    }
    AskStep(source, missing, i, asked, before.Keys);
    MergeStepCovers(source, t, missing, i, translation.value);
    MergeStepKeeps(source, t, missing, i, before, cache.entries, translation.value);
    MergeStepUntouched(target, t, missing, i, translation.value);
    var merged := MergePath(t, keys, translation.value);
    return Ok(merged);
  }

  /**
   * Lines 36-55 of the main script for one source file and one target
   * language: diff, then for each missing path in the diff's order look up
   * the source leaf, translate it through a memo that starts empty, and merge
   * the translation into the target tree, later merges seeing earlier ones.
   * On success nothing is missing any more; every missing leaf now holds its
   * translation; every other path is as before; no text was sent for
   * translation twice or without being part of a missing leaf; every
   * translation used is what a client was answered for its text; and each
   * client sent exactly as many translate requests as the texts it answered.
   */
  method FillTarget(source: Entries, target: Entries, clients: seq<DeeplClient>,
                    sourceLanguage: string, targetLanguage: string)
    returns (r: Result<Entries, ClientError>, ghost translations: map<string, string>, ghost asked: seq<string>,
             ghost origins: map<string, Origin>)
    requires WellFormed(source) && Compatible(source, target)
    requires AllValid(clients)
    modifies clients
    ensures AllValid(clients)
    ensures forall c :: c in clients ==> old(c.requests) <= c.requests
    ensures Sourced(translations, origins, clients, sourceLanguage, targetLanguage)
    ensures FindMissingKeys(source, target, []) == [] ==> r == Ok(target)
    ensures r.Err? ==> exists q, x :: q in FindMissingKeys(source, target, []) && LeafText(source, q, x) && x !in translations
    ensures r.Ok? ==> Compatible(source, r.value) && FindMissingKeys(source, r.value, []) == []
    ensures r.Ok? ==> forall q :: q in FindMissingKeys(source, target, []) ==> TranslatedAt(source, r.value, q, translations)
    ensures r.Ok? ==> Untouched(target, r.value, FindMissingKeys(source, target, []))
    ensures r.Ok? ==>
      (forall i, j :: 0 <= i < j < |asked| ==> asked[i] != asked[j]) &&
      (forall x :: x in translations <==> x in asked) &&
      AskedFor(source, FindMissingKeys(source, target, []), asked)
    ensures r.Ok? ==> forall c :: c in clients ==>
      TranslateRequests(c.requests[|old(c.requests)|..]) == SentBy(asked, origins, c)
  {
    var missing := FindMissingKeys(source, target, []);
    var cache := new TranslationCache();
    var t := target;
    ghost var logs := map c | c in clients :: c.requests;
    forall c | c in clients
      ensures TranslateRequests(c.requests[|logs[c]|..]) == SentBy(cache.misses, cache.origins, c)
    {
      assert c.requests[|c.requests|..] == [];
    }
    LoopStart(source, target);
    for i := 0 to |missing|
      invariant cache.Valid() && AllValid(clients)
      invariant Sourced(cache.entries, cache.origins, clients, sourceLanguage, targetLanguage)
      invariant Filled(source, target, missing, i, t, cache.entries, cache.misses)
      invariant missing == [] ==> t == target
      invariant forall c :: c in clients ==>
        c in logs && logs[c] <= c.requests &&
        TranslateRequests(c.requests[|logs[c]|..]) == SentBy(cache.misses, cache.origins, c)
    {
      var next := FillNext(source, target, missing, i, t, cache, clients, sourceLanguage, targetLanguage, logs);
      if next.Err? {
        ghost var x :| LeafText(source, missing[i], x) && x !in cache.entries;
        assert missing[i] in missing;
        return Err(next.error), cache.entries, cache.misses, cache.origins;
      }
      t := next.value;
    }
    LoopDone(source, target, missing, t, cache.entries, cache.misses);
    return Ok(t), cache.entries, cache.misses, cache.origins;
  }
}
