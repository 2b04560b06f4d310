/**
 * The translation value tree shared by I18nTree, WorkspaceFolderTranslation and
 * I18nResolver: the nested object a YAML locale file parses into, the deep merge
 * that combines such objects (`merge.recursive`), the flattened lookup map
 * (`flat`), and the lookup pipeline of `getTranslation` (exact lookup first, then
 * a walk one segment at a time, then rendering of a mapping as `key: value` lines).
 */
module Translations {

  import opened Wrappers
  import opened Text

  /**
   * A translation value: a string, or a JavaScript object whose keys are kept in
   * `Object.keys` order.
   */
  datatype Translation = Leaf(text: string) | Node(entries: seq<(string, Translation)>)

  /** The keys and values of one object, in key order. */
  type Entries = seq<(string, Translation)>

  /** A flattened lookup map: full dotted key to translation text, in key order. */
  type LookupMap = seq<(string, string)>

  /** What `getTranslation` answers: `null`, `undefined`, or a text. */
  datatype Lookup = Null | Undefined | Text(value: string)

  // ---------------------------------------------------------------------------
  // Objects as ordered association lists
  // ---------------------------------------------------------------------------

  /** `Object.keys(m)`. */
  function KeysOf<V>(m: seq<(string, V)>): (ks: seq<string>)
    ensures |ks| == |m|
    ensures forall i | 0 <= i < |m| :: ks[i] == m[i].0
  {
    if m == [] then [] else [m[0].0] + KeysOf(m[1..])
  }

  predicate Distinct(s: seq<string>)
  {
    forall i, j | 0 <= i < j < |s| :: s[i] != s[j]
  }

  /** No key occurs twice, as in every JavaScript object. */
  predicate UniqueKeys<V>(m: seq<(string, V)>)
  {
    Distinct(KeysOf(m))
  }

  /** `m[k]`: the value stored under `k`, if any. */
  function Find<V>(m: seq<(string, V)>, k: string): (r: Option<V>)
    ensures r.Some? <==> k in KeysOf(m)
    ensures r.Some? ==> (k, r.value) in m
  {
    if m == [] then None
    else if m[0].0 == k then Some(m[0].1)
    else
      assert KeysOf(m) == [m[0].0] + KeysOf(m[1..]);
      Find(m[1..], k)
  }

  /** `m[k] = v`: an existing key keeps its position, a new key is appended. */
  function Put<V>(m: seq<(string, V)>, k: string, v: V): (r: seq<(string, V)>)
    ensures Find(r, k) == Some(v)
    ensures forall k' | k' != k :: Find(r, k') == Find(m, k')
  {
    if m == [] then [(k, v)]
    else if m[0].0 == k then [(k, v)] + m[1..]
    else [m[0]] + Put(m[1..], k, v)
  }

  /** A new key goes last; the order of the existing keys does not change. */
  lemma {:induction false} PutKeys<V>(m: seq<(string, V)>, k: string, v: V)
    ensures KeysOf(Put(m, k, v)) == if k in KeysOf(m) then KeysOf(m) else KeysOf(m) + [k]
  {
    if m != [] {
      var r := Put(m, k, v);
      KeysOfCons(m[0], m[1..]);
      assert m == [m[0]] + m[1..];
      if m[0].0 == k {
        KeysOfCons((k, v), m[1..]);
      } else {
        PutKeys(m[1..], k, v);
        KeysOfCons(m[0], Put(m[1..], k, v));
        assert k in KeysOf(m) <==> k in KeysOf(m[1..]);
        if k in KeysOf(m[1..]) {
        } else {
          assert [m[0].0] + (KeysOf(m[1..]) + [k]) == ([m[0].0] + KeysOf(m[1..])) + [k];
        }
      }
    }
  }

  lemma KeysOfCons<V>(x: (string, V), rest: seq<(string, V)>)
    ensures KeysOf([x] + rest) == [x.0] + KeysOf(rest)
  {
    assert ([x] + rest)[1..] == rest;
  }

  /** Put stores nothing but the existing entries and the new one. */
  lemma {:induction false} PutMembers<V>(m: seq<(string, V)>, k: string, v: V)
    ensures forall p | p in Put(m, k, v) :: p in m || p == (k, v)
  {
    if m != [] && m[0].0 != k {
      PutMembers(m[1..], k, v);
    }
  }

  lemma KeysOfSuffix<V>(m: seq<(string, V)>, i: nat)
    requires i <= |m|
    ensures KeysOf(m[i..]) == KeysOf(m)[i..]
  {
  }

  /** With unique keys, the entry at index `j` is the one found under its key. */
  lemma FindUnique<V>(m: seq<(string, V)>, j: nat)
    requires UniqueKeys(m) && j < |m|
    ensures Find(m, m[j].0) == Some(m[j].1)
    decreases j
  {
    if j > 0 {
      assert m[0].0 != m[j].0 by { assert KeysOf(m)[0] != KeysOf(m)[j]; }
      assert UniqueKeys(m[1..]) by {
        KeysOfSuffix(m, 1);
      }
      FindUnique(m[1..], j - 1);
    }
  }

  lemma PutUnique<V>(m: seq<(string, V)>, k: string, v: V)
    requires UniqueKeys(m)
    ensures UniqueKeys(Put(m, k, v))
  {
    PutKeys(m, k, v);
  }

  /** Every key of every object in the tree is unique within its object. */
  predicate WellFormed(t: Translation)
  {
    match t
    case Leaf(_) => true
    case Node(es) => UniqueKeys(es) && forall p | p in es :: WellFormed(p.1)
  }

  // ---------------------------------------------------------------------------
  // Walking a path, one segment at a time (`traverseThroughMap`)
  // ---------------------------------------------------------------------------

  /** `t[k]` on a value: a string has no translation children. */
  function Child(t: Translation, k: string): Option<Translation>
  {
    match t
    case Leaf(_) => None
    case Node(es) => Find(es, k)
  }

  /** The value reached from `t` by indexing with each segment of `path` in turn. */
  function Traverse(t: Translation, path: seq<string>): Option<Translation>
    decreases |path|
  {
    if path == [] then Some(t)
    else
      match Child(t, path[0])
      case None => None
      case Some(c) => Traverse(c, path[1..])
  }

  /**
   * `traverseThroughMap`: starts at the tree and indexes it with one key part per
   * step; once the result is `undefined` it stays `undefined`.
   */
  method TraverseThroughMap(tree: Translation, keyParts: seq<string>) returns (result: Option<Translation>)
    ensures result == Traverse(tree, keyParts)
  {
    result := Some(tree);
    var i := 0;
    while i < |keyParts|
      invariant 0 <= i <= |keyParts|
      invariant Traverse(tree, keyParts) == if result.None? then None else Traverse(result.value, keyParts[i..])
    {
      if result.Some? {
        assert keyParts[i..][0] == keyParts[i] && keyParts[i..][1..] == keyParts[i + 1..];
        result := Child(result.value, keyParts[i]);
      }
      i := i + 1;
    }
  }

  lemma {:induction false} TraverseAppend(t: Translation, p: seq<string>, q: seq<string>)
    ensures Traverse(t, p + q) == if Traverse(t, p).None? then None else Traverse(Traverse(t, p).value, q)
    decreases |p|
  {
    if p != [] {
      assert (p + q)[0] == p[0] && (p + q)[1..] == p[1..] + q;
      match Child(t, p[0])
      case None =>
      case Some(c) => TraverseAppend(c, p[1..], q);
    } else {
      assert p + q == q;
    }
  }

  // ---------------------------------------------------------------------------
  // Deep merge (`merge.recursive(false, base, extend)`)
  // ---------------------------------------------------------------------------

  /**
   * Merge `extend` into `base`: two objects are merged key by key, recursively;
   * in every other case the later value `extend` wins.
   */
  function DeepMerge(base: Translation, extend: Translation): Translation
    decreases extend, 1
  {
    if base.Node? && extend.Node? then Node(MergeFrom(base.entries, extend, 0)) else extend
  }

  /** Merge the entries of `extend` from index `i` on into `acc`, one key at a time. */
  function MergeFrom(acc: Entries, extend: Translation, i: nat): Entries
    requires extend.Node? && i <= |extend.entries|
    decreases extend, 0, |extend.entries| - i
  {
    if i == |extend.entries| then acc
    else
      var k, v := extend.entries[i].0, extend.entries[i].1;
      MergeFrom(Put(acc, k, MergedValue(acc, k, v)), extend, i + 1)
  }

  lemma {:induction false} MergeFromKeys(acc: Entries, extend: Translation, i: nat)
    requires extend.Node? && i <= |extend.entries|
    ensures KeysOf(acc) <= KeysOf(MergeFrom(acc, extend, i))
    ensures forall k :: k in KeysOf(MergeFrom(acc, extend, i)) <==> k in KeysOf(acc) || k in KeysOf(extend.entries[i..])
    decreases |extend.entries| - i
  {
    if i < |extend.entries| {
      var k, v := extend.entries[i].0, extend.entries[i].1;
      var acc' := Put(acc, k, MergedValue(acc, k, v));
      PutKeys(acc, k, MergedValue(acc, k, v));
      MergeFromKeys(acc', extend, i + 1);
      assert KeysOf(extend.entries[i..]) == [k] + KeysOf(extend.entries[i + 1..]);
    }
  }

  /** The value a merge stores under `k` when `extend` holds `v` there. */
  function MergedValue(acc: Entries, k: string, v: Translation): Translation
    decreases v, 2
  {
    match Find(acc, k)
    case Some(prev) => DeepMerge(prev, v)
    case None => v
  }

  /** Merge the object `extend` into the object `base`. */
  function MergeObjects(base: Entries, extend: Entries): Entries
  {
    MergeFrom(base, Node(extend), 0)
  }

  /** The value a merge leaves under one key, from the values the two sides had there. */
  function Combine(before: Option<Translation>, added: Option<Translation>): Option<Translation>
  {
    match added
    case None => before
    case Some(v) => if before.Some? then Some(DeepMerge(before.value, v)) else Some(v)
  }

  lemma {:induction false} FindMergeFrom(acc: Entries, extend: Translation, i: nat, k: string)
    requires extend.Node? && i <= |extend.entries| && UniqueKeys(extend.entries)
    ensures Find(MergeFrom(acc, extend, i), k) == Combine(Find(acc, k), Find(extend.entries[i..], k))
    decreases |extend.entries| - i
  {
    var es := extend.entries;
    if i < |es| {
      var k0, v := es[i].0, es[i].1;
      var merged := MergedValue(acc, k0, v);
      FindMergeFrom(Put(acc, k0, merged), extend, i + 1, k);
      assert es[i..][0] == es[i] && es[i..][1..] == es[i + 1..];
      if k0 == k {
        KeysOfSuffix(es, i + 1);
        assert k !in KeysOf(es[i + 1..]) by {
          forall j | i + 1 <= j < |es| ensures KeysOf(es)[j] != k {
            assert KeysOf(es)[i] == k;
          }
        }
      }
    }
  }

  /** The value under `k` after a merge, from the values under `k` before (needs unique keys in `extend`). */
  lemma FindMerge(base: Entries, extend: Entries, k: string)
    requires UniqueKeys(extend)
    ensures Find(MergeObjects(base, extend), k) == Combine(Find(base, k), Find(extend, k))
  {
    FindMergeFrom(base, Node(extend), 0, k);
    assert extend[0..] == extend;
  }

  /**
   * The keys of a merge: the keys of `base` in their order, then the keys only
   * `extend` has; never a key twice.
   */
  lemma MergeKeys(base: Entries, extend: Entries)
    requires UniqueKeys(base)
    ensures KeysOf(base) <= KeysOf(MergeObjects(base, extend))
    ensures forall k :: k in KeysOf(MergeObjects(base, extend)) <==> k in KeysOf(base) || k in KeysOf(extend)
    ensures UniqueKeys(MergeObjects(base, extend))
  {
    assert extend[0..] == extend;
    MergeFromKeys(base, Node(extend), 0);
    MergeFromUnique(base, Node(extend), 0);
  }

  lemma {:induction false} MergeFromUnique(acc: Entries, extend: Translation, i: nat)
    requires extend.Node? && i <= |extend.entries| && UniqueKeys(acc)
    ensures UniqueKeys(MergeFrom(acc, extend, i))
    decreases |extend.entries| - i
  {
    if i < |extend.entries| {
      var k, v := extend.entries[i].0, extend.entries[i].1;
      var merged := MergedValue(acc, k, v);
      PutUnique(acc, k, merged);
      MergeFromUnique(Put(acc, k, merged), extend, i + 1);
    }
  }

  /** Merging one folder's part under a key keeps the key list, or appends the key when new. */
  lemma MergeSingleKey(base: Entries, k: string, part: Translation)
    ensures KeysOf(MergeObjects(base, [(k, part)])) == if k in KeysOf(base) then KeysOf(base) else KeysOf(base) + [k]
  {
    var merged := MergedValue(base, k, part);
    var ext := Node([(k, part)]);
    assert ext.entries[0].0 == k && ext.entries[0].1 == part;
    assert MergeFrom(base, ext, 0) == MergeFrom(Put(base, k, merged), ext, 1);
    assert MergeObjects(base, [(k, part)]) == Put(base, k, merged);
    PutKeys(base, k, merged);
  }

  /** A merge of well-formed trees is well formed. */
  lemma {:induction false} MergeWellFormed(base: Translation, extend: Translation)
    requires WellFormed(base) && WellFormed(extend)
    ensures WellFormed(DeepMerge(base, extend))
    decreases extend, 1
  {
    if base.Node? && extend.Node? {
      MergeFromWellFormed(base.entries, extend, 0);
      MergeFromUnique(base.entries, extend, 0);
    }
  }

  lemma {:induction false} MergeFromWellFormed(acc: Entries, extend: Translation, i: nat)
    requires extend.Node? && i <= |extend.entries| && WellFormed(extend)
    requires forall p | p in acc :: WellFormed(p.1)
    ensures forall p | p in MergeFrom(acc, extend, i) :: WellFormed(p.1)
    decreases extend, 0, |extend.entries| - i
  {
    if i < |extend.entries| {
      var k, v := extend.entries[i].0, extend.entries[i].1;
      assert extend.entries[i] in extend.entries;
      var merged := MergedValue(acc, k, v);
      match Find(acc, k) {
        case Some(prev) => MergeWellFormed(prev, v);
        case None =>
      }
      PutMembers(acc, k, merged);
      MergeFromWellFormed(Put(acc, k, merged), extend, i + 1);
    }
  }

  /**
   * `extend` leaves the path `p` alone: walking `p` through `extend` falls off at a
   * missing key before the end of `p`, passing only objects.
   */
  predicate Untouched(extend: Translation, p: seq<string>)
    decreases |p|
  {
    p != [] && extend.Node? &&
    match Find(extend.entries, p[0])
    case None => true
    case Some(c) => Untouched(c, p[1..])
  }

  /**
   * After a merge, `p` names the text `s` exactly when `extend` put `s` there, or
   * `base` had `s` there and `extend` left that path alone: a merge removes no
   * translation that the merged part does not itself overwrite.
   */
  lemma {:induction false} MergeLeafIff(base: Translation, extend: Translation, p: seq<string>, s: string)
    requires WellFormed(extend)
    ensures Traverse(DeepMerge(base, extend), p) == Some(Leaf(s)) <==>
      Traverse(extend, p) == Some(Leaf(s)) || (Traverse(base, p) == Some(Leaf(s)) && Untouched(extend, p))
    decreases |p|
  {
    if p != [] && base.Node? && extend.Node? {
      var k := p[0];
      FindMerge(base.entries, extend.entries, k);
      match Find(extend.entries, k)
      case None =>
      case Some(v) =>
        assert (k, v) in extend.entries;
        match Find(base.entries, k)
        case None =>
        case Some(o) =>
          MergeLeafIff(o, v, p[1..], s);
    }
  }

  // ---------------------------------------------------------------------------
  // The lookup map (`flatten` of the `flat` package, as LookupMapGenerator uses it)
  // ---------------------------------------------------------------------------

  /** The output key of `flat` for key `k` below `prefix`: `prefix ? prefix + "." + k : k`. */
  function FlatKey(prefix: string, k: string): string
  {
    if prefix == "" then k else prefix + "." + k
  }

  /** The flattened key of the path `p` below `prefix`. */
  function FlatPath(prefix: string, p: seq<string>): string
    decreases |p|
  {
    if p == [] then prefix else FlatPath(FlatKey(prefix, p[0]), p[1..])
  }

  /** Every string leaf of `t` with its flattened key, depth first, in key order. */
  function Leaves(t: Translation, prefix: string): seq<(string, string)>
    decreases t, 1
  {
    match t
    case Leaf(s) => [(prefix, s)]
    case Node(_) => LeavesFrom(t, prefix, 0)
  }

  function LeavesFrom(t: Translation, prefix: string, i: nat): seq<(string, string)>
    requires t.Node? && i <= |t.entries|
    decreases t, 0, |t.entries| - i
  {
    if i == |t.entries| then []
    else Leaves(t.entries[i].1, FlatKey(prefix, t.entries[i].0)) + LeavesFrom(t, prefix, i + 1)
  }

  /** Assign every pair of `l` in turn into the object `acc`. */
  function Assign(acc: LookupMap, l: seq<(string, string)>): LookupMap
    decreases |l|
  {
    if l == [] then acc else Assign(Put(acc, l[0].0, l[0].1), l[1..])
  }

  /** `flatten(tree)`: the lookup map of a tree. */
  function Flatten(t: Translation): LookupMap
  {
    Assign([], Leaves(t, ""))
  }

  lemma {:induction false} AssignFind(acc: LookupMap, l: seq<(string, string)>, k: string)
    ensures Find(Assign(acc, l), k).Some? <==> Find(acc, k).Some? || k in KeysOf(l)
    ensures Find(Assign(acc, l), k).Some? ==> (k, Find(Assign(acc, l), k).value) in l || Find(acc, k) == Find(Assign(acc, l), k)
    decreases |l|
  {
    if l != [] {
      AssignFind(Put(acc, l[0].0, l[0].1), l[1..], k);
      assert KeysOf(l) == [l[0].0] + KeysOf(l[1..]);
    }
  }

  lemma {:induction false} LeavesFromHas(t: Translation, prefix: string, i: nat, j: nat)
    requires t.Node? && i <= j < |t.entries|
    ensures forall q | q in Leaves(t.entries[j].1, FlatKey(prefix, t.entries[j].0)) :: q in LeavesFrom(t, prefix, i)
    decreases j - i
  {
    if i < j {
      LeavesFromHas(t, prefix, i + 1, j);
    }
  }

  lemma {:induction false} LeavesFromMember(t: Translation, prefix: string, i: nat, q: (string, string)) returns (j: nat)
    requires t.Node? && i <= |t.entries| && q in LeavesFrom(t, prefix, i)
    ensures i <= j < |t.entries| && q in Leaves(t.entries[j].1, FlatKey(prefix, t.entries[j].0))
    decreases |t.entries| - i
  {
    if q in Leaves(t.entries[i].1, FlatKey(prefix, t.entries[i].0)) {
      j := i;
    } else {
      j := LeavesFromMember(t, prefix, i + 1, q);
    }
  }

  /** Every text the tree holds is listed under the flattened key of its path. */
  lemma {:induction false} LeavesComplete(t: Translation, prefix: string, p: seq<string>, s: string)
    requires Traverse(t, p) == Some(Leaf(s))
    ensures (FlatPath(prefix, p), s) in Leaves(t, prefix)
    decreases |p|
  {
    if p != [] {
      var c := Child(t, p[0]).value;
      var j :| 0 <= j < |t.entries| && t.entries[j] == (p[0], c);
      LeavesComplete(c, FlatKey(prefix, p[0]), p[1..], s);
      LeavesFromHas(t, prefix, 0, j);
    }
  }

  /** Indexing an object with one of its keys, then walking on. */
  lemma TraverseStep(es: Entries, j: nat, p: seq<string>)
    requires UniqueKeys(es) && j < |es|
    ensures Traverse(Node(es), [es[j].0] + p) == Traverse(es[j].1, p)
  {
    FindUnique(es, j);
    assert ([es[j].0] + p)[0] == es[j].0;
    assert ([es[j].0] + p)[1..] == p;
  }

  /** Everything listed is a text of the tree under the flattened key of its path. */
  lemma {:induction false} LeavesSound(t: Translation, prefix: string, q: (string, string))
    requires WellFormed(t) && q in Leaves(t, prefix)
    ensures exists p :: Traverse(t, p) == Some(Leaf(q.1)) && FlatPath(prefix, p) == q.0
    decreases t
  {
    if t.Leaf? {
      assert Traverse(t, []) == Some(Leaf(q.1)) && FlatPath(prefix, []) == q.0;
    } else {
      var es := t.entries;
      var j := LeavesFromMember(t, prefix, 0, q);
      assert es[j] in es;
      LeavesSound(es[j].1, FlatKey(prefix, es[j].0), q);
      var p :| Traverse(es[j].1, p) == Some(Leaf(q.1)) && FlatPath(FlatKey(prefix, es[j].0), p) == q.0;
      TraverseStep(es, j, p);
      assert FlatPath(prefix, [es[j].0] + p) == q.0 by {
        assert ([es[j].0] + p)[1..] == p;
      }
    }
  }

  /** Every text of the tree has its flattened path as a key of the lookup map. */
  lemma FlattenComplete(t: Translation, p: seq<string>, s: string)
    requires Traverse(t, p) == Some(Leaf(s))
    ensures Find(Flatten(t), FlatPath("", p)).Some?
  {
    LeavesComplete(t, "", p, s);
    AssignFind([], Leaves(t, ""), FlatPath("", p));
  }

  /** Every entry of the lookup map is a text of the tree under the flattened key of its path. */
  lemma FlattenSound(t: Translation, k: string, v: string)
    requires WellFormed(t) && Find(Flatten(t), k) == Some(v)
    ensures exists p :: Traverse(t, p) == Some(Leaf(v)) && FlatPath("", p) == k
  {
    AssignFind([], Leaves(t, ""), k);
    LeavesSound(t, "", (k, v));
  }

  /** Below a non-empty prefix, the flattened key of a path is the dotted join. */
  lemma {:induction false} FlatPathBelow(prefix: string, p: seq<string>)
    requires prefix != ""
    ensures FlatPath(prefix, p) == if p == [] then prefix else prefix + "." + JoinDots(p)
    decreases |p|
  {
    if p != [] {
      FlatPathBelow(prefix + "." + p[0], p[1..]);
      if |p| > 1 {
        assert JoinDots(p) == p[0] + "." + JoinDots(p[1..]);
      }
    }
  }

  /** For a path whose first segment is not empty, the flattened key is `path.join(".")`. */
  lemma FlatPathIsJoin(p: seq<string>)
    requires p == [] || p[0] != ""
    ensures FlatPath("", p) == JoinDots(p)
  {
    if p != [] {
      FlatPathBelow(p[0], p[1..]);
      if |p| > 1 {
        assert JoinDots(p) == p[0] + "." + JoinDots(p[1..]);
      }
    }
  }

  /** Every key of every object of the tree is non-empty and contains no '.' (no flat keys). */
  predicate PlainKeys(t: Translation)
  {
    match t
    case Leaf(_) => true
    case Node(es) => forall p | p in es :: p.0 != "" && '.' !in p.0 && PlainKeys(p.1)
  }

  /** Merging trees without flat keys gives a tree without flat keys. */
  lemma {:induction false} MergePlainKeys(base: Translation, extend: Translation)
    requires PlainKeys(base) && PlainKeys(extend)
    ensures PlainKeys(DeepMerge(base, extend))
    decreases extend, 1
  {
    if base.Node? && extend.Node? {
      MergeFromPlainKeys(base.entries, extend, 0);
    }
  }

  lemma {:induction false} MergeFromPlainKeys(acc: Entries, extend: Translation, i: nat)
    requires extend.Node? && i <= |extend.entries| && PlainKeys(extend)
    requires PlainKeys(Node(acc))
    ensures PlainKeys(Node(MergeFrom(acc, extend, i)))
    decreases extend, 0, |extend.entries| - i
  {
    if i < |extend.entries| {
      var k, v := extend.entries[i].0, extend.entries[i].1;
      assert extend.entries[i] in extend.entries;
      var merged := MergedValue(acc, k, v);
      match Find(acc, k) {
        case Some(prev) => MergePlainKeys(prev, v);
        case None =>
      }
      PutMembers(acc, k, merged);
      MergeFromPlainKeys(Put(acc, k, merged), extend, i + 1);
    }
  }

  /** A segment list the lookup pipeline can address unambiguously. */
  predicate PlainSegments(p: seq<string>)
  {
    forall k | 0 <= k < |p| :: p[k] != "" && '.' !in p[k]
  }

  lemma {:induction false} TraversePlain(t: Translation, p: seq<string>)
    requires PlainKeys(t) && Traverse(t, p).Some?
    ensures PlainSegments(p)
    ensures PlainKeys(Traverse(t, p).value)
    decreases |p|
  {
    if p != [] {
      var c := Child(t, p[0]).value;
      assert (p[0], c) in t.entries;
      TraversePlain(c, p[1..]);
      assert forall k | 1 <= k < |p| :: p[k] == p[1..][k - 1];
    }
  }

  /**
   * Without flat keys, the lookup map holds exactly the tree's texts: each path
   * to a text, dot-joined, maps to that text.
   */
  lemma FlattenExact(t: Translation, p: seq<string>, s: string)
    requires WellFormed(t) && PlainKeys(t) && Traverse(t, p) == Some(Leaf(s))
    ensures Find(Flatten(t), JoinDots(p)) == Some(s)
  {
    TraversePlain(t, p);
    FlattenComplete(t, p, s);
    FlatPathIsJoin(p);
    var v := Find(Flatten(t), JoinDots(p)).value;
    FlattenSound(t, JoinDots(p), v);
    var q :| Traverse(t, q) == Some(Leaf(v)) && FlatPath("", q) == JoinDots(p);
    TraversePlain(t, q);
    FlatPathIsJoin(q);
    JoinDotsInjective(p, q);
  }

  /**
   * Without flat keys, a plain path that does not lead to a text is not a key of
   * the lookup map.
   */
  lemma FlattenMisses(t: Translation, p: seq<string>)
    requires WellFormed(t) && PlainKeys(t) && PlainSegments(p)
    requires Traverse(t, p).None? || Traverse(t, p).value.Node?
    ensures Find(Flatten(t), JoinDots(p)).None?
  {
    if Find(Flatten(t), JoinDots(p)).Some? {
      var v := Find(Flatten(t), JoinDots(p)).value;
      FlattenSound(t, JoinDots(p), v);
      var q :| Traverse(t, q) == Some(Leaf(v)) && FlatPath("", q) == JoinDots(p);
      TraversePlain(t, q);
      FlatPathIsJoin(q);
      JoinDotsInjective(p, q);
    }
  }

  // ---------------------------------------------------------------------------
  // Rendering a mapping (`transformMultiResultIntoText`)
  // ---------------------------------------------------------------------------

  /** One `key: text` line per string child, in key order; object children give none. */
  function Lines(es: Entries): seq<string>
  {
    if es == [] then []
    else (if es[0].1.Leaf? then [es[0].0 + ": " + es[0].1.text] else []) + Lines(es[1..])
  }

  /** The lines of a mapping joined by newlines. */
  function Render(es: Entries): string
  {
    JoinWith(Lines(es), "\n")
  }

  /** The lines of two runs of children are the lines of each, in order. */
  lemma {:induction false} LinesAppend(a: Entries, b: Entries)
    ensures Lines(a + b) == Lines(a) + Lines(b)
  {
    if a == [] {
      assert a + b == b;
    } else {
      assert (a + b)[0] == a[0] && (a + b)[1..] == a[1..] + b;
      LinesAppend(a[1..], b);
    }
  }

  /** A line is listed exactly for each string child. */
  lemma {:induction false} LinesMembers(es: Entries, line: string)
    ensures line in Lines(es) <==> exists j :: 0 <= j < |es| && es[j].1.Leaf? && line == es[j].0 + ": " + es[j].1.text
  {
    if es != [] {
      LinesMembers(es[1..], line);
      if line in Lines(es[1..]) {
        var j :| 0 <= j < |es[1..]| && es[1..][j].1.Leaf? && line == es[1..][j].0 + ": " + es[1..][j].1.text;
        assert es[j + 1] == es[1..][j];
      }
      if exists j :: 0 <= j < |es| && es[j].1.Leaf? && line == es[j].0 + ": " + es[j].1.text {
        var j :| 0 <= j < |es| && es[j].1.Leaf? && line == es[j].0 + ": " + es[j].1.text;
        if j > 0 {
          assert es[1..][j - 1] == es[j];
        }
      }
    }
  }

  /** `transformMultiResultIntoText`: pushes one line per string child, then joins them. */
  method TransformMultiResultIntoText(result: Entries) returns (text: string)
    ensures text == Render(result)
  {
    var resultLines: seq<string> := [];
    var i := 0;
    while i < |result|
      invariant 0 <= i <= |result|
      invariant resultLines == Lines(result[..i])
    {
      var key := result[i].0;
      assert result[..i + 1] == result[..i] + [result[i]];
      LinesAppend(result[..i], [result[i]]);
      if result[i].1.Leaf? {
        resultLines := resultLines + [key + ": " + result[i].1.text];
      }
      i := i + 1;
    }
    assert result[..i] == result;
    text := JoinWith(resultLines, "\n");
  }

  // ---------------------------------------------------------------------------
  // The lookup pipeline of `getTranslation`
  // ---------------------------------------------------------------------------

  /** `makeKeyParts`: the leading segments, then the dot-separated key, with empty segments dropped. */
  function KeyParts(leading: seq<string>, key: string): seq<string>
  {
    RemoveEmpty(leading + Split(key, '.'))
  }

  /** A dotted key of plain segments comes back as its segments, after the leading ones. */
  lemma KeyPartsOfDottedKey(leading: seq<string>, segs: seq<string>)
    requires |segs| >= 1 && PlainSegments(segs)
    requires forall k | 0 <= k < |leading| :: leading[k] != ""
    ensures KeyParts(leading, JoinDots(segs)) == leading + segs
  {
    SplitJoin(segs, '.');
  }

  /** With dot-free leading segments, every key part is non-empty and dot-free. */
  lemma KeyPartsPlain(leading: seq<string>, key: string)
    requires forall k | 0 <= k < |leading| :: '.' !in leading[k]
    ensures PlainSegments(KeyParts(leading, key))
  {
    var all := leading + Split(key, '.');
    assert forall x | x in all :: '.' !in x;
  }

  /** What walking the tree alone answers: the text, the rendered mapping, or `undefined`. */
  function TreeAnswer(tree: Entries, keyParts: seq<string>): Lookup
  {
    match Traverse(Node(tree), keyParts)
    case None => Undefined
    case Some(Leaf(s)) => Text(s)
    case Some(Node(es)) => Text(Render(es))
  }

  /** What the lookup pipeline answers for the key parts `keyParts`: the lookup map first, then the tree. */
  function TranslationAt(tree: Entries, lookupMap: LookupMap, keyParts: seq<string>): Lookup
  {
    match Find(lookupMap, JoinDots(keyParts))
    case Some(s) => Text(s)
    case None => TreeAnswer(tree, keyParts)
  }

  /**
   * The body of `getTranslation` after the key check: the lookup map first, then
   * the walk through the tree, a mapping rendered as text.
   */
  method LookupTranslation(tree: Entries, lookupMap: LookupMap, keyParts: seq<string>) returns (r: Lookup)
    ensures r == TranslationAt(tree, lookupMap, keyParts)
  {
    var fullKey := JoinDots(keyParts);
    var simpleLookupResult := Find(lookupMap, fullKey);
    if simpleLookupResult.Some? {
      return Text(simpleLookupResult.value);
    }
    var lookupResult := TraverseThroughMap(Node(tree), keyParts);
    if lookupResult.None? {
      r := Undefined;
    } else if lookupResult.value.Node? {
      var text := TransformMultiResultIntoText(lookupResult.value.entries);
      r := Text(text);
    } else {
      r := Text(lookupResult.value.text);
    }
  }

  /**
   * When the lookup map is the flattening of a tree without flat keys, the fast
   * path changes no answer: the pipeline gives the text at the path, the rendered
   * mapping at the path, or `undefined` when the path is missing.
   */
  lemma TranslationAtAgreesWithTree(tree: Entries, lookupMap: LookupMap, keyParts: seq<string>)
    requires WellFormed(Node(tree)) && PlainKeys(Node(tree)) && lookupMap == Flatten(Node(tree))
    requires PlainSegments(keyParts)
    ensures TranslationAt(tree, lookupMap, keyParts) == TreeAnswer(tree, keyParts)
  {
    match Traverse(Node(tree), keyParts)
    case Some(Leaf(s)) => FlattenExact(Node(tree), keyParts, s);
    case _ => FlattenMisses(Node(tree), keyParts);
  }

  /**
   * A flat key and a nested path that flatten to the same key collide in the
   * lookup map, and the leaf flattened last wins: for `{en: {"a.b": "1", a: {b: "2"}}}`
   * the key `a.b` in locale `en` gives `"2"`.
   */
  lemma LaterLeafWinsCollision()
    ensures TranslationAt([("en", Node([("a.b", Leaf("1")), ("a", Node([("b", Leaf("2"))]))]))], Flatten(Node([("en", Node([("a.b", Leaf("1")), ("a", Node([("b", Leaf("2"))]))]))])), KeyParts(["en"], "a.b")) == Text("2")
  {
    var inner := Node([("b", Leaf("2"))]);
    var en := Node([("a.b", Leaf("1")), ("a", inner)]);
    var t := Node([("en", en)]);
    var k := "en.a.b";
    assert FlatKey("", "en") == "en";
    assert FlatKey("en", "a") == "en.a";
    assert FlatKey("en", "a.b") == k;
    assert FlatKey("en.a", "b") == k;
    assert LeavesFrom(inner, "en.a", 1) == [];
    assert LeavesFrom(inner, "en.a", 0) == [(k, "2")];
    assert LeavesFrom(en, "en", 2) == [];
    assert LeavesFrom(en, "en", 1) == [(k, "2")];
    assert LeavesFrom(en, "en", 0) == [(k, "1"), (k, "2")];
    assert LeavesFrom(t, "", 1) == [];
    assert LeavesFrom(t, "", 0) == [(k, "1"), (k, "2")];
    assert Put([], k, "1") == [(k, "1")];
    assert Put([(k, "1")], k, "2") == [(k, "2")];
    assert Assign([(k, "2")], []) == [(k, "2")];
    assert Assign([(k, "1")], [(k, "2")]) == [(k, "2")];
    assert Flatten(t) == [(k, "2")];
    assert IndexOfChar("a.b", '.') == 1;
    assert "a.b"[..1] == "a" && "a.b"[2..] == "b";
    assert IndexOfChar("b", '.') == 1;
    assert Split("a.b", '.') == ["a", "b"];
    assert KeyParts(["en"], "a.b") == ["en", "a", "b"];
    assert JoinDots(["en", "a", "b"]) == k;
  }

  // ---------------------------------------------------------------------------
  // Prefix search (`getKeysStartingWith`)
  // ---------------------------------------------------------------------------

  /** `s` is `t` with some elements left out, the rest in their order. */
  predicate IsSubsequence(s: seq<string>, t: seq<string>)
    decreases |t|
  {
    if s == [] then true
    else if t == [] then false
    else (s[0] == t[0] && IsSubsequence(s[1..], t[1..])) || IsSubsequence(s, t[1..])
  }

  /** `keys.filter(k => k.startsWith(prefix))`. */
  function KeysWithPrefix(keys: seq<string>, prefix: string): (r: seq<string>)
    ensures forall k :: k in r <==> k in keys && prefix <= k
    ensures IsSubsequence(r, keys)
  {
    if keys == [] then []
    else if prefix <= keys[0] then [keys[0]] + KeysWithPrefix(keys[1..], prefix)
    else KeysWithPrefix(keys[1..], prefix)
  }

  // ---------------------------------------------------------------------------
  // Locale queries on one object of locales
  // ---------------------------------------------------------------------------

  /**
   * `!!Object.keys(t).find(key => key === locale)`: the key found is itself the
   * truth value, so the empty locale never counts as present.
   */
  function HasLocale(t: Entries, locale: string): (r: bool)
    ensures r <==> locale != "" && Traverse(Node(t), [locale]).Some?
  {
    locale != "" && locale in KeysOf(t)
  }

  /** The first top-level key of `t`, or `"en"` when `t` has none. */
  function FallbackFrom(t: Entries): (r: string)
    ensures t == [] ==> r == "en"
    ensures t != [] ==> r == KeysOf(t)[0] && Traverse(Node(t), [r]) == Some(t[0].1)
  {
    if t == [] then "en" else t[0].0
  }

  /** Merging more into a non-empty object keeps its first key, so the fallback locale stays. */
  lemma FallbackStable(t: Entries, extend: Entries)
    requires t != []
    ensures FallbackFrom(MergeObjects(t, extend)) == FallbackFrom(t)
  {
    MergeFromKeys(t, Node(extend), 0);
    assert KeysOf(t)[0] == KeysOf(MergeObjects(t, extend))[0];
  }
}
