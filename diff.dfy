/**
 * The structural diff of `BaseFile.find_missing_keys`: the key paths of the
 * source tree's leaves whose key is absent from the target tree.
 */
module Diff {
  import opened Wrappers
  import opened Tree

  /**
   * The well-typed case of the diff: wherever the source holds a dict, the
   * target holds a dict or nothing. (Elsewhere Python would run `key in value`
   * on a string, list or `None`.)
   */
  predicate Compatible(s: Entries, t: Entries) {
    match s
    case Nil => true
    case Cons(k, v, rest) =>
      && (v.Dict? ==>
            && (Get(t, k).None? || Get(t, k).value.Dict?)
            && Compatible(v.entries, ChildDict(t, k)))
      && Compatible(rest, t)
  }

  /** `find_missing_keys(s, t, prefix)`, in the order of the source's entries. */
  function FindMissingKeys(s: Entries, t: Entries, prefix: Path): (r: seq<Path>)
    requires Compatible(s, t)
    ensures forall p :: p in r ==> |p| > |prefix| && p[..|prefix|] == prefix
    decreases s
  {
    match s
    case Nil => []
    case Cons(k, v, rest) => EntryMissing(k, v, t, prefix) + FindMissingKeys(rest, t, prefix)
  }

  /** What one source entry `k: v` contributes to the diff (one turn of the loop). */
  function EntryMissing(k: Key, v: Value, t: Entries, prefix: Path): (r: seq<Path>)
    requires v.Dict? ==> Compatible(v.entries, ChildDict(t, k))
    ensures forall p :: p in r ==> |p| > |prefix| && p[..|prefix|] == prefix
    decreases v
  {
    match v
    case Null => []
    case Dict(e) => FindMissingKeys(e, ChildDict(t, k), prefix + [k])
    case _ => if Get(t, k).None? then [prefix + [k]] else []
  }

  /** Every path to a string or list leaf of `s`, in pre-order, each after `prefix`. */
  function LeafPaths(s: Entries, prefix: Path): seq<Path> {
    match s
    case Nil => []
    case Cons(k, v, rest) =>
      (match v
       case Null => []
       case Dict(e) => LeafPaths(e, prefix + [k])
       case _ => [prefix + [k]])
      + LeafPaths(rest, prefix)
  }

  /** The entries of `a` followed by those of `b`. */
  function Concat(a: Entries, b: Entries): Entries {
    match a
    case Nil => b
    case Cons(k, v, rest) => Cons(k, v, Concat(rest, b))
  }

  lemma {:induction false} CompatibleWithEmpty(s: Entries)
    ensures Compatible(s, Nil)
  {
    match s
    case Nil =>
    case Cons(k, v, rest) =>
      if v.Dict? {
        CompatibleWithEmpty(v.entries);
      }
      CompatibleWithEmpty(rest);
  }

  /** Every reported path lies under `prefix` and leads to a leaf of `s` whose key the target lacks. */
  lemma {:induction false} MissingKeysSound(s: Entries, t: Entries, prefix: Path, p: Path)
    requires WellFormed(s) && Compatible(s, t)
    requires p in FindMissingKeys(s, t, prefix)
    ensures |p| > |prefix| && p[..|prefix|] == prefix
    ensures LeafAt(s, p[|prefix|..]) && !Has(t, p[|prefix|..])
    decreases s
  {
    var Cons(k, v, rest) := s;
    var q := p[|prefix|..];
    if p in FindMissingKeys(rest, t, prefix) {
      MissingKeysSound(rest, t, prefix, p);
      assert q[0] != k by {
        assert Get(rest, q[0]).Some?;
      }
      assert Lookup(s, q) == Lookup(rest, q);
    } else {
      EntryMissingSound(k, v, t, prefix, p);
      assert Get(s, k) == Some(v);
    }
  }

  lemma {:induction false} EntryMissingSound(k: Key, v: Value, t: Entries, prefix: Path, p: Path)
    requires v.Dict? ==> WellFormed(v.entries) && Compatible(v.entries, ChildDict(t, k))
    requires p in EntryMissing(k, v, t, prefix)
    ensures |p| > |prefix| && p[..|prefix|] == prefix && p[|prefix|] == k
    ensures var q := p[|prefix| + 1..];
      if q == [] then IsLeaf(v) && Get(t, k).None?
      else v.Dict? && LeafAt(v.entries, q) && !Has(ChildDict(t, k), q)
    ensures forall d: Entries :: Get(d, k) == Some(v) ==> LeafAt(d, p[|prefix|..])
    ensures !Has(t, p[|prefix|..])
    decreases v
  {
    var q := p[|prefix| + 1..];
    assert p[|prefix|..] == [k] + q;
    match v
    case Dict(e) =>
      MissingKeysSound(e, ChildDict(t, k), prefix + [k], p);
      assert p[|prefix + [k]|..] == q;
    case Str(_) =>
      assert p == prefix + [k];
    case Lst(_) =>
      assert p == prefix + [k];
  }

  /** Every leaf of `s` whose key the target lacks is reported, under `prefix`. */
  lemma {:induction false} MissingKeysComplete(s: Entries, t: Entries, prefix: Path, q: Path)
    requires Compatible(s, t)
    requires LeafAt(s, q) && !Has(t, q)
    ensures prefix + q in FindMissingKeys(s, t, prefix)
    decreases s
  {
    var Cons(k, v, rest) := s;
    if q[0] == k {
      var here := EntryMissing(k, v, t, prefix);
      assert FindMissingKeys(s, t, prefix) == here + FindMissingKeys(rest, t, prefix);
      if |q| == 1 {
        assert q == [k] && IsLeaf(v);
        assert Get(t, k).None?;
        assert here == [prefix + q];
      } else {
        LookupThroughChild(s, q);
        assert v.Dict?;
        assert !Has(ChildDict(t, k), q[1..]);
        assert here == FindMissingKeys(v.entries, ChildDict(t, k), prefix + [k]);
        MissingKeysComplete(v.entries, ChildDict(t, k), prefix + [k], q[1..]);
        PathAppend(prefix, q);
      }
    } else {
      assert Lookup(s, q) == Lookup(rest, q);
      MissingKeysComplete(rest, t, prefix, q);
    }
  }

  lemma PathAppend(prefix: Path, q: Path)
    requires |q| > 0
    ensures prefix + [q[0]] + q[1..] == prefix + q
  {
    assert [q[0]] + q[1..] == q;
  }

  /**
   * The diff, as a set: exactly the leaf paths of the source whose key is
   * absent from the target (`None` values and dicts are never reported).
   */
  lemma MissingKeysCharacterised(s: Entries, t: Entries, q: Path)
    requires WellFormed(s) && Compatible(s, t)
    ensures q in FindMissingKeys(s, t, []) <==> LeafAt(s, q) && !Has(t, q)
  {
    if q in FindMissingKeys(s, t, []) {
      MissingKeysSound(s, t, [], q);
      assert q[0..] == q;
    }
    if LeafAt(s, q) && !Has(t, q) {
      MissingKeysComplete(s, t, [], q);
      assert [] + q == q;
    }
  }

  /** A leaf directly under `s` is reported exactly when its key is absent from the target, whatever the target holds there. */
  lemma LeafReportedIffAbsent(s: Entries, t: Entries, prefix: Path, k: Key)
    requires WellFormed(s) && Compatible(s, t)
    requires Get(s, k).Some? && IsLeaf(Get(s, k).value)
    ensures prefix + [k] in FindMissingKeys(s, t, prefix) <==> Get(t, k).None?
  {
    if prefix + [k] in FindMissingKeys(s, t, prefix) {
      MissingKeysSound(s, t, prefix, prefix + [k]);
      assert (prefix + [k])[|prefix|..] == [k];
    }
    if Get(t, k).None? {
      MissingKeysComplete(s, t, prefix, [k]);
    }
  }

  /** Against an empty target, every leaf is reported, in pre-order: the case of a dict key the target lacks. */
  lemma {:induction false} MissingFromEmpty(s: Entries, prefix: Path)
    ensures Compatible(s, Nil)
    ensures FindMissingKeys(s, Nil, prefix) == LeafPaths(s, prefix)
  {
    CompatibleWithEmpty(s);
    match s
    case Nil =>
    case Cons(k, v, rest) =>
      if v.Dict? {
        MissingFromEmpty(v.entries, prefix + [k]);
      }
      MissingFromEmpty(rest, prefix);
  }

  /**
   * Output order: the paths of earlier source entries come first, and the
   * paths of one entry (a whole subtree) are contiguous.
   */
  lemma {:induction false} CompatibleConcat(a: Entries, b: Entries, t: Entries)
    requires Compatible(a, t) && Compatible(b, t)
    ensures Compatible(Concat(a, b), t)
  {
    match a
    case Nil =>
    case Cons(k, v, rest) =>
      CompatibleConcat(rest, b, t);
  }

  lemma {:induction false} MissingKeysConcat(a: Entries, b: Entries, t: Entries, prefix: Path)
    requires Compatible(a, t) && Compatible(b, t)
    ensures Compatible(Concat(a, b), t)
    ensures FindMissingKeys(Concat(a, b), t, prefix)
         == FindMissingKeys(a, t, prefix) + FindMissingKeys(b, t, prefix)
  {
    CompatibleConcat(a, b, t);
    match a
    case Nil =>
    case Cons(k, v, rest) =>
      MissingKeysConcat(rest, b, t, prefix);
      var here := EntryMissing(k, v, t, prefix);
      AppendAssoc(here, FindMissingKeys(rest, t, prefix), FindMissingKeys(b, t, prefix));
  }

  lemma AppendAssoc(a: seq<Path>, b: seq<Path>, c: seq<Path>)
    ensures a + (b + c) == (a + b) + c
  {
  }

  /** `a` agrees with `t` on every key of `a`. */
  ghost predicate Within(a: Entries, t: Entries) {
    forall k :: Get(a, k).Some? ==> Get(t, k) == Get(a, k)
  }

  lemma {:induction false} SelfDiffWithin(a: Entries, t: Entries, prefix: Path)
    requires WellFormed(a) && Within(a, t)
    ensures Compatible(a, t) && FindMissingKeys(a, t, prefix) == []
  {
    match a
    case Nil =>
    case Cons(k, v, rest) =>
      assert Get(t, k) == Some(v);
      if v.Dict? {
        SelfDiffWithin(v.entries, v.entries, prefix + [k]);
      }
      forall k' | Get(rest, k').Some?
        ensures Get(t, k') == Get(rest, k')
      {
        assert k' != k;
      }
      SelfDiffWithin(rest, t, prefix);
  }

  /** Diffing a tree against itself reports nothing. */
  lemma SelfDiffEmpty(s: Entries)
    requires WellFormed(s)
    ensures Compatible(s, s) && FindMissingKeys(s, s, []) == []
  {
    SelfDiffWithin(s, s, []);
  }
}
