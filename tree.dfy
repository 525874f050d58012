/**
 * Localisation trees as the engine sees them once a YAML or JSON file has been
 * parsed: a Python dict whose values are `None`, a string, a list of strings
 * or a nested dict. A dict is an insertion-ordered association list.
 */
module Tree {
  import opened Wrappers

  type Key = string
  type Path = seq<Key>

  datatype Value = Null | Str(text: string) | Lst(items: seq<string>) | Dict(entries: Entries)

  /** A dict: its entries in insertion order. */
  datatype Entries = Nil | Cons(key: Key, value: Value, rest: Entries)

  predicate IsLeaf(v: Value) {
    v.Str? || v.Lst?
  }

  /** `d.get(k)`: the value of the first entry with key `k`. */
  function Get(d: Entries, k: Key): Option<Value> {
    match d
    case Nil => None
    case Cons(k', v, rest) => if k' == k then Some(v) else Get(rest, k)
  }

  /** The keys of `d` in iteration order. */
  function KeyList(d: Entries): seq<Key> {
    match d
    case Nil => []
    case Cons(k, _, rest) => [k] + KeyList(rest)
  }

  /** Python dicts never hold a key twice, at any depth. */
  predicate WellFormed(d: Entries) {
    match d
    case Nil => true
    case Cons(k, v, rest) =>
      Get(rest, k).None? && (v.Dict? ==> WellFormed(v.entries)) && WellFormed(rest)
  }

  /**
   * Item assignment `d[k] = v`: an existing key keeps its position and gets the
   * new value, a new key is appended at the end.
   */
  function Put(d: Entries, k: Key, v: Value): (r: Entries)
    ensures Get(r, k) == Some(v)
    ensures forall k' :: k' != k ==> Get(r, k') == Get(d, k')
    ensures KeyList(r) == if k in KeyList(d) then KeyList(d) else KeyList(d) + [k]
  {
    match d
    case Nil => Cons(k, v, Nil)
    case Cons(k', v', rest) =>
      if k' == k then Cons(k, v, rest) else Cons(k', v', Put(rest, k, v))
  }

  /** The dict stored under `k`, or `{}` when `k` is absent or holds a non-dict. */
  function ChildDict(d: Entries, k: Key): Entries {
    match Get(d, k)
    case Some(Dict(e)) => e
    case _ => Nil
  }

  /**
   * `reduce(lambda data, key: data[key], path, d)`: index successively with each
   * key; `None` where Python would raise (a missing key, or indexing a non-dict).
   */
  function Lookup(d: Entries, path: Path): Option<Value>
    decreases |path|
  {
    if path == [] then Some(Dict(d))
    else match Get(d, path[0])
      case None => None
      case Some(v) =>
        if |path| == 1 then Some(v)
        else if v.Dict? then Lookup(v.entries, path[1..])
        else None
  }

  /** Walking `d` along `path` reaches a string or list leaf. */
  predicate LeafAt(d: Entries, path: Path) {
    Lookup(d, path).Some? && IsLeaf(Lookup(d, path).value)
  }

  /**
   * The last key of `path` is present in the dict reached by following the
   * earlier keys, where an absent or non-dict intermediate counts as `{}`.
   */
  predicate Has(d: Entries, path: Path)
    decreases |path|
  {
    if path == [] then false
    else if |path| == 1 then Get(d, path[0]).Some?
    else Has(ChildDict(d, path[0]), path[1..])
  }

  /** The dict reached from `d` by following `path`, with `{}` for absent or non-dict steps. */
  function DictAt(d: Entries, path: Path): Entries
    decreases |path|
  {
    if path == [] then d else DictAt(ChildDict(d, path[0]), path[1..])
  }

  /** Two dicts that agree on the first key of a path agree along the whole path. */
  lemma LookupSameFirst(d: Entries, d': Entries, q: Path)
    requires |q| > 0 && Get(d', q[0]) == Get(d, q[0])
    ensures Lookup(d', q) == Lookup(d, q)
  {
  }

  /** A path of two keys or more is looked up in the dict under its first key. */
  lemma LookupThroughChild(d: Entries, q: Path)
    requires |q| > 1
    ensures Lookup(d, q) == Lookup(ChildDict(d, q[0]), q[1..])
  {
    match Get(d, q[0])
    case None =>
    case Some(v) =>
      if !v.Dict? {
        assert Lookup(Nil, q[1..]) == None;
      }
  }
}
