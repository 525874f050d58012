/**
 * The merge loop of the main script: write a translated leaf into the target
 * tree at a key path, turning every absent or non-dict intermediate into `{}`.
 */
module Merge {
  import opened Wrappers
  import opened Tree
  import opened Diff

  /** The target tree after `target[k0]...[kn] = v` with intermediates forced to dicts. */
  function SetPath(d: Entries, keys: Path, v: Value): Entries
    requires |keys| > 0
    decreases |keys|
  {
    if |keys| == 1 then Put(d, keys[0], v)
    else Put(d, keys[0], Dict(SetPath(ChildDict(d, keys[0]), keys[1..], v)))
  }

  /** Two paths that part ways: neither is a prefix of the other. */
  predicate Diverge(p: Path, q: Path)
    decreases |p|
  {
    |p| > 0 && |q| > 0 && (p[0] != q[0] || Diverge(p[1..], q[1..]))
  }

  /** `p` is a proper prefix of `q`. */
  predicate ProperPrefix(p: Path, q: Path) {
    |p| < |q| && q[..|p|] == p
  }

  lemma {:induction false} DictAtSnoc(d: Entries, p: Path, k: Key)
    ensures DictAt(d, p + [k]) == ChildDict(DictAt(d, p), k)
    decreases |p|
  {
    if p != [] {
      assert (p + [k])[1..] == p[1..] + [k];
      DictAtSnoc(ChildDict(d, p[0]), p[1..], k);
    }
  }

  /** One step down the merge path. */
  lemma DictAtNext(d: Entries, keys: Path, i: nat)
    requires i < |keys|
    ensures DictAt(d, keys[..i + 1]) == ChildDict(DictAt(d, keys[..i]), keys[i])
  {
    DictAtSnoc(d, keys[..i], keys[i]);
    assert keys[..i] + [keys[i]] == keys[..i + 1];
  }

  /** One step back up the merge path: the dict at depth `i` takes the updated dict below it. */
  lemma SetPathUp(d: Entries, keys: Path, i: nat, v: Value)
    requires i + 1 < |keys|
    ensures SetPath(DictAt(d, keys[..i]), keys[i..], v)
         == Put(DictAt(d, keys[..i]), keys[i], Dict(SetPath(DictAt(d, keys[..i + 1]), keys[i + 1..], v)))
  {
    DictAtNext(d, keys, i);
    assert keys[i..][1..] == keys[i + 1..];
  }

  /**
   * The merge as the script runs it: walk down the key path (lines 51-54),
   * assign the leaf (line 55). Dicts are values here, so each updated dict is
   * put back into its parent on the way up, where Python shares it by reference.
   */
  method MergePath(target: Entries, keys: Path, value: Value) returns (r: Entries)
    requires |keys| > 0
    ensures r == SetPath(target, keys, value)
  {
    var frames: seq<Entries> := [];
    var current := target;
    var i := 0;
    while i < |keys| - 1
      invariant 0 <= i <= |keys| - 1
      invariant |frames| == i
      invariant forall j :: 0 <= j < i ==> frames[j] == DictAt(target, keys[..j])
      invariant current == DictAt(target, keys[..i])
    {
      DictAtNext(target, keys, i);
      frames := frames + [current];
      current := ChildDict(current, keys[i]);
      i := i + 1;
    }
    var updated := Put(current, keys[i], value);
    while i > 0
      invariant 0 <= i <= |keys| - 1
      invariant updated == SetPath(DictAt(target, keys[..i]), keys[i..], value)
    {
      i := i - 1;
      SetPathUp(target, keys, i, value);
      updated := Put(frames[i], keys[i], Dict(updated));
    }
    assert keys[0..] == keys;
    r := updated;
  }

  /** After the merge, walking the target along the path yields the written value. */
  lemma {:induction false} MergeWritesValue(d: Entries, keys: Path, v: Value)
    requires |keys| > 0
    ensures Lookup(SetPath(d, keys, v), keys) == Some(v)
    decreases |keys|
  {
    if |keys| > 1 {
      MergeWritesValue(ChildDict(d, keys[0]), keys[1..], v);
    }
  }

  /**
   * Level by level along the path: the dict at depth `j` after the merge holds
   * a dict under the next key (for every key but the last) and agrees with the
   * dict there before (`{}` if there was none) on every other key.
   */
  lemma {:induction false} MergeLevels(d: Entries, keys: Path, v: Value, j: nat)
    requires j < |keys|
    ensures j < |keys| - 1 ==>
      var below := Get(DictAt(SetPath(d, keys, v), keys[..j]), keys[j]);
      below.Some? && below.value.Dict?
    ensures forall k :: k != keys[j] ==>
      Get(DictAt(SetPath(d, keys, v), keys[..j]), k) == Get(DictAt(d, keys[..j]), k)
    decreases |keys|
  {
    if j > 0 {
      MergeLevels(ChildDict(d, keys[0]), keys[1..], v, j - 1);
      assert keys[..j][1..] == keys[1..][..j - 1];
    }
  }

  /** Paths that part ways from the merge path keep what they led to. */
  lemma {:induction false} MergeKeepsOthers(d: Entries, keys: Path, v: Value, q: Path)
    requires |keys| > 0 && Diverge(q, keys)
    ensures Lookup(SetPath(d, keys, v), q) == Lookup(d, q)
    decreases |keys|
  {
    var d' := SetPath(d, keys, v);
    if q[0] != keys[0] {
      LookupSameFirst(d, d', q);
    } else {
      var child := ChildDict(d, keys[0]);
      MergeKeepsOthers(child, keys[1..], v, q[1..]);
      assert ChildDict(d', q[0]) == SetPath(child, keys[1..], v);
      LookupThroughChild(d', q);
      LookupThroughChild(d, q);
    }
  }

  /** A key present before the merge stays present unless the merge path ends above it. */
  lemma {:induction false} MergeKeepsPresence(d: Entries, keys: Path, v: Value, q: Path)
    requires |keys| > 0 && Has(d, q) && !ProperPrefix(keys, q)
    ensures Has(SetPath(d, keys, v), q)
    decreases |keys|
  {
    if |q| > 1 && q[0] == keys[0] {
      assert |keys| > 1;
      assert !ProperPrefix(keys[1..], q[1..]) by {
        if |keys| - 1 < |q| - 1 {
          assert q[..|keys|] == [q[0]] + q[1..][..|keys| - 1];
        }
      }
      MergeKeepsPresence(ChildDict(d, keys[0]), keys[1..], v, q[1..]);
    }
  }

  /** The merged path itself is present afterwards. */
  lemma {:induction false} MergeMakesPresent(d: Entries, keys: Path, v: Value)
    requires |keys| > 0
    ensures Has(SetPath(d, keys, v), keys)
    decreases |keys|
  {
    if |keys| > 1 {
      MergeMakesPresent(ChildDict(d, keys[0]), keys[1..], v);
    }
  }

  /** Two merges: into an empty target, and over a string in the way. */
  lemma MergeExamples()
    ensures SetPath(Nil, ["a", "b"], Str("v")) == Cons("a", Dict(Cons("b", Str("v"), Nil)), Nil)
    ensures SetPath(Cons("a", Str("x"), Nil), ["a", "b"], Str("v"))
         == Cons("a", Dict(Cons("b", Str("v"), Nil)), Nil)
  {
  }

  /** Two leaf paths of one tree are equal or part ways. */
  lemma {:induction false} LeafPathsDiverge(s: Entries, p: Path, q: Path)
    requires LeafAt(s, p) && LeafAt(s, q) && p != q
    ensures Diverge(p, q)
    decreases |p|
  {
    if p[0] == q[0] {
      var v := Get(s, p[0]).value;
      if |p| == 1 || |q| == 1 {
        assert false;
      } else {
        assert p[1..] != q[1..] by {
          assert p == [p[0]] + p[1..] && q == [q[0]] + q[1..];
        }
        LeafPathsDiverge(v.entries, p[1..], q[1..]);
      }
    }
  }

  /** A leaf path never ends above another leaf path. */
  lemma {:induction false} LeafPathNotAbove(s: Entries, p: Path, q: Path)
    requires LeafAt(s, p) && LeafAt(s, q)
    ensures !ProperPrefix(p, q)
    decreases |p|
  {
    if |p| < |q| && p[0] == q[0] {
      var v := Get(s, p[0]).value;
      if |p| > 1 {
        LeafPathNotAbove(v.entries, p[1..], q[1..]);
        assert q[1..][..|p| - 1] == q[..|p|][1..];
      }
    }
  }

  /**
   * Merging at a place where the source holds no dict keeps the target in the
   * well-typed relation to the source that the diff needs.
   */
  lemma {:induction false} MergeKeepsCompatible(s: Entries, t: Entries, keys: Path, v: Value)
    requires WellFormed(s) && Compatible(s, t) && |keys| > 0
    requires Lookup(s, keys).Some? ==> !Lookup(s, keys).value.Dict?
    ensures Compatible(s, SetPath(t, keys, v))
    decreases s
  {
    match s
    case Nil =>
    case Cons(k, sv, rest) =>
      var t' := SetPath(t, keys, v);
      assert Lookup(rest, keys).Some? ==> !Lookup(rest, keys).value.Dict? by {
        if k == keys[0] {
          assert Get(rest, keys[0]).None?;
        } else {
          assert Lookup(rest, keys) == Lookup(s, keys);
        }
      }
      MergeKeepsCompatible(rest, t, keys, v);
      if sv.Dict? {
        if k == keys[0] {
          assert |keys| > 1;
          MergeKeepsCompatible(sv.entries, ChildDict(t, k), keys[1..], v);
        } else {
          assert Get(t', k) == Get(t, k);
        }
      }
  }
}
