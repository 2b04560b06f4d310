/**
 * Finding the source range of a translation in a parsed YAML document
 * (`findKeyValueRangeInYamlDocument`), with support for flat keys: a single
 * mapping key such as `hello.world` that stands for several nesting levels.
 */
module DefinitionProvider {
  import opened Wrappers
  import opened Text

  /** A `[start, end]` pair of offsets into the YAML text, as the parser reports it. */
  datatype Range = Range(start: int, end: int)

  /**
   * A node of the YAML AST. `NotObject` is a value whose `typeof` is not
   * `"object"`; `Object` carries the node type, its range and, for collections,
   * its list of pairs.
   */
  datatype YamlValue =
    | NotObject
    | Object(nodeType: string, range: Range, items: Option<seq<YamlItem>>)

  /** One pair of a mapping: its key as a string and its value node. */
  datatype YamlItem = YamlItem(stringKey: string, value: YamlValue)

  /** A parsed document: the pairs of its top-level mapping, if it has any. */
  datatype YamlDocument = YamlDocument(items: Option<seq<YamlItem>>)

  /** The node types whose range is the answer. */
  const ScalarTypes: seq<string> := ["PLAIN", "QUOTE_DOUBLE", "QUOTE_SINGLE", "BLOCK_FOLDED", "BLOCK_LITERAL"]

  /** `pairs.find(item => item.stringKey === key)`: the first pair with that key. */
  function FindItem(pairs: seq<YamlItem>, key: string): (r: Option<YamlItem>)
    ensures r.Some? ==> r.value in pairs && r.value.stringKey == key
    ensures r.None? ==> forall it | it in pairs :: it.stringKey != key
    ensures r.Some? ==> exists j :: 0 <= j < |pairs| && pairs[j] == r.value && forall m | 0 <= m < j :: pairs[m].stringKey != key
  {
    if pairs == [] then None
    else if pairs[0].stringKey == key then Some(pairs[0])
    else
      var rest := FindItem(pairs[1..], key);
      if rest.Some? then
        var j :| 0 <= j < |pairs[1..]| && pairs[1..][j] == rest.value && forall m | 0 <= m < j :: pairs[1..][m].stringKey != key;
        assert pairs[j + 1] == rest.value && forall m | 0 <= m < j + 1 :: pairs[m].stringKey != key;
        rest
      else rest
  }

  /** The path the lookup walks: the locale, then the non-empty dot-separated segments of the key. */
  function QueryPath(locale: string, absoluteKey: string): (parts: seq<string>)
    ensures |parts| >= 1 && parts[0] == locale
    ensures forall k | 1 <= k < |parts| :: parts[k] != "" && '.' !in parts[k]
  {
    var segs := RemoveEmpty(Split(absoluteKey, '.'));
    assert forall x | x in segs :: '.' !in x;
    [locale] + segs
  }

  /** At step `i`: the pair keyed by the whole remaining dotted suffix, else the pair keyed by the segment. */
  function StepItem(pairs: seq<YamlItem>, parts: seq<string>, i: nat): Option<YamlItem>
    requires i < |parts|
  {
    var flat := FindItem(pairs, JoinDots(parts[i..]));
    if flat.Some? then flat else FindItem(pairs, parts[i])
  }

  /** The range the walk reaches from `pairs` at step `i`, or `None` for `null`. */
  function ResolveFrom(pairs: seq<YamlItem>, parts: seq<string>, i: nat): Option<Range>
    requires i <= |parts|
    decreases |parts| - i
  {
    if i == |parts| then None
    else
      match StepItem(pairs, parts, i)
      case None => None
      case Some(item) =>
        match item.value
        case NotObject => None
        case Object(t, range, items) =>
          if t in ScalarTypes then Some(range)
          else if items.Some? then ResolveFrom(items.value, parts, i + 1)
          else None
  }

  /** What `findKeyValueRangeInYamlDocument` answers. */
  function KeyValueRange(doc: YamlDocument, absoluteKey: string, locale: string): Option<Range>
  {
    if doc.items.None? then None else ResolveFrom(doc.items.value, QueryPath(locale, absoluteKey), 0)
  }

  /**
   * `findKeyValueRangeInYamlDocument`: walks the pair lists one step per path
   * segment, preferring a flat key for the rest of the path, and returns the
   * range of the first scalar it reaches.
   */
  method FindKeyValueRangeInYamlDocument(doc: YamlDocument, absoluteKey: string, locale: string) returns (r: Option<Range>)
    ensures r == KeyValueRange(doc, absoluteKey, locale)
    ensures doc.items.None? ==> r.None?
  {
    var keyParts := RemoveEmpty(Split(absoluteKey, '.'));
    if doc.items.None? {
      return None;
    }
    var yamlPairs := doc.items.value;
    keyParts := [locale] + keyParts;
    assert keyParts == QueryPath(locale, absoluteKey);
    for i := 0 to |keyParts|
      invariant ResolveFrom(yamlPairs, keyParts, i) == KeyValueRange(doc, absoluteKey, locale)
    {
      var keyPart := keyParts[i];
      var flatKey := JoinDots(keyParts[i..]);
      var yamlPair := FindItem(yamlPairs, flatKey);
      if yamlPair.None? {
        yamlPair := FindItem(yamlPairs, keyPart);
        if yamlPair.None? {
          return None;
        }
      }
      var value := yamlPair.value.value;
      if value.NotObject? {
        return None;
      }
      if value.nodeType in ScalarTypes {
        return Some(value.range);
      } else if value.items.Some? {
        yamlPairs := value.items.value;
      } else {
        return None;
      }
    }
    return None;
  }

  /**
   * A pair keyed by the whole remaining suffix wins over a pair keyed by the
   * segment alone: the first such pair decides the step.
   */
  lemma FlatKeyFirst(pairs: seq<YamlItem>, parts: seq<string>, i: nat, it: YamlItem)
    requires i < |parts| && it in pairs && it.stringKey == JoinDots(parts[i..])
    ensures StepItem(pairs, parts, i).Some?
    ensures StepItem(pairs, parts, i).value.stringKey == JoinDots(parts[i..])
  {
  }

  /** When neither the suffix nor the segment is a key at a step, the key is not found. */
  lemma MissingKey(pairs: seq<YamlItem>, parts: seq<string>, i: nat)
    requires i < |parts|
    requires forall it | it in pairs :: it.stringKey != JoinDots(parts[i..]) && it.stringKey != parts[i]
    ensures ResolveFrom(pairs, parts, i).None?
  {
    assert FindItem(pairs, JoinDots(parts[i..])).None?;
  }

  /** A segment of a key: non-empty and without a dot. */
  predicate PlainSegment(x: string)
  {
    x != "" && '.' !in x
  }

  /** The dotted join of two or more segments holds a dot. */
  lemma JoinDotsHasDot(parts: seq<string>)
    requires |parts| >= 2
    ensures '.' in JoinDots(parts)
  {
    assert JoinDots(parts) == parts[0] + "." + JoinDots(parts[1..]);
    assert JoinDots(parts)[|parts[0]|] == '.';
  }

  /**
   * A document that nests the first `j` segments as mappings and then holds the
   * rest of the path as one flat key with the value `leaf`.
   */
  function Nested(parts: seq<string>, j: nat, leaf: YamlValue, mapRange: Range): seq<YamlItem>
    requires j < |parts|
    decreases j
  {
    if j == 0 then [YamlItem(JoinDots(parts), leaf)]
    else [YamlItem(parts[0], Object("MAP", mapRange, Some(Nested(parts[1..], j - 1, leaf, mapRange))))]
  }

  lemma {:induction false} NestedResolvesFrom(parts: seq<string>, i: nat, j: nat, nodeType: string, range: Range, mapRange: Range)
    requires i + j < |parts|
    requires forall k | 0 <= k < |parts| :: parts[k] != "" && '.' !in parts[k]
    requires nodeType in ScalarTypes
    ensures ResolveFrom(Nested(parts[i..], j, Object(nodeType, range, None), mapRange), parts, i) == Some(range)
    decreases j
  {
    var leaf := Object(nodeType, range, None);
    var pairs := Nested(parts[i..], j, leaf, mapRange);
    if j == 0 {
      assert FindItem(pairs, JoinDots(parts[i..])) == Some(pairs[0]);
    } else {
      assert |parts[i..]| >= 2;
      JoinDotsHasDot(parts[i..]);
      assert '.' !in parts[i];
      assert FindItem(pairs, JoinDots(parts[i..])).None?;
      assert parts[i..][0] == parts[i];
      assert parts[i..][1..] == parts[i + 1..];
      NestedResolvesFrom(parts, i + 1, j - 1, nodeType, range, mapRange);
    }
  }

  /**
   * Nested levels and a flat key for the rest resolve alike: `en: {hello: {world: "x"}}`,
   * `en: {hello.world: "x"}` and `en.hello.world: "x"` all give the range of `"x"`.
   */
  lemma NestedResolves(locale: string, absoluteKey: string, j: nat, nodeType: string, range: Range, mapRange: Range)
    requires locale != "" && '.' !in locale
    requires j < |QueryPath(locale, absoluteKey)| && nodeType in ScalarTypes
    ensures KeyValueRange(YamlDocument(Some(Nested(QueryPath(locale, absoluteKey), j, Object(nodeType, range, None), mapRange))), absoluteKey, locale) == Some(range)
  {
    var parts := QueryPath(locale, absoluteKey);
    assert parts[0..] == parts;
    NestedResolvesFrom(parts, 0, j, nodeType, range, mapRange);
  }

  /** A scalar ends the walk with its range even when path segments remain. */
  lemma ScalarStopsEarly(pairs: seq<YamlItem>, parts: seq<string>, i: nat, it: YamlItem)
    requires i < |parts| && StepItem(pairs, parts, i) == Some(it)
    requires it.value.Object? && it.value.nodeType in ScalarTypes
    ensures ResolveFrom(pairs, parts, i) == Some(it.value.range)
  {
  }

  /** Landing on mappings until the path runs out gives `null`. */
  lemma MappingAtEnd(pairs: seq<YamlItem>, parts: seq<string>, it: YamlItem, items: seq<YamlItem>)
    requires |parts| >= 1 && StepItem(pairs, parts, |parts| - 1) == Some(it)
    requires it.value.Object? && it.value.nodeType !in ScalarTypes && it.value.items == Some(items)
    ensures ResolveFrom(pairs, parts, |parts| - 1).None?
  {
  }

  /** The query path of a key written as dotted plain segments is the locale, then those segments. */
  lemma QueryPathOfDotted(locale: string, segs: seq<string>)
    requires |segs| >= 1 && forall k | 0 <= k < |segs| :: PlainSegment(segs[k])
    ensures QueryPath(locale, JoinDots(segs)) == [locale] + segs
  {
    SplitJoin(segs, '.');
  }

  lemma JoinThree(a: string, b: string, c: string)
    ensures JoinDots([a, b, c]) == a + "." + b + "." + c
  {
    assert JoinDots([a, b, c]) == a + "." + JoinDots([b, c]);
    assert JoinDots([b, c]) == b + "." + JoinDots([c]);
  }

  /** The query path of a key written as three dotted segments. */
  lemma QueryPathOfThree(locale: string, a: string, b: string, c: string)
    requires PlainSegment(a) && PlainSegment(b) && PlainSegment(c)
    ensures QueryPath(locale, a + "." + b + "." + c) == [locale, a, b, c]
  {
    JoinThree(a, b, c);
    QueryPathOfDotted(locale, [a, b, c]);
  }

  /** `en: {hello.world: "hello"}` and the key `hello.world` give the range of the value. */
  lemma FlatKeyUnderLocale(locale: string, a: string, b: string, range: Range, mapRange: Range)
    requires locale != "" && '.' !in locale && PlainSegment(a) && PlainSegment(b)
    ensures KeyValueRange(
      YamlDocument(Some([YamlItem(locale, Object("MAP", mapRange, Some([YamlItem(a + "." + b, Object("QUOTE_DOUBLE", range, None))])))])),
      a + "." + b, locale) == Some(range)
  {
    assert JoinDots([a, b]) == a + "." + b by { assert JoinDots([a, b]) == a + "." + JoinDots([b]); }
    QueryPathOfDotted(locale, [a, b]);
    var parts := [locale, a, b];
    assert parts[1..] == [a, b];
    NestedResolves(locale, a + "." + b, 1, "QUOTE_DOUBLE", range, mapRange);
  }

  /** `en.hello.world: "hello"` and the key `hello.world` give the range of the value. */
  lemma AllFlatKeys(locale: string, a: string, b: string, range: Range, mapRange: Range)
    requires locale != "" && '.' !in locale && PlainSegment(a) && PlainSegment(b)
    ensures KeyValueRange(
      YamlDocument(Some([YamlItem(locale + "." + a + "." + b, Object("QUOTE_DOUBLE", range, None))])),
      a + "." + b, locale) == Some(range)
  {
    assert JoinDots([a, b]) == a + "." + b by { assert JoinDots([a, b]) == a + "." + JoinDots([b]); }
    QueryPathOfDotted(locale, [a, b]);
    JoinThree(locale, a, b);
    NestedResolves(locale, a + "." + b, 0, "QUOTE_DOUBLE", range, mapRange);
  }

  /**
   * A flat key in the middle of the path is not found: in `en: {a.b: {c: "x"}}`
   * the key `a.b.c` gives `null`, since only the whole rest of the path or a
   * single segment is tried at each step.
   */
  lemma MidPathFlatKeyMissed(locale: string, a: string, b: string, c: string, leaf: YamlValue, mapRange: Range)
    requires locale != "" && '.' !in locale
    requires PlainSegment(a) && PlainSegment(b) && PlainSegment(c)
    ensures KeyValueRange(
      YamlDocument(Some([YamlItem(locale, Object("MAP", mapRange, Some([
        YamlItem(a + "." + b, Object("MAP", mapRange, Some([YamlItem(c, leaf)])))])))])),
      a + "." + b + "." + c, locale) == None
  {
    var key := a + "." + b + "." + c;
    QueryPathOfThree(locale, a, b, c);
    var parts := [locale, a, b, c];
    var inner := [YamlItem(a + "." + b, Object("MAP", mapRange, Some([YamlItem(c, leaf)])))];
    var top := [YamlItem(locale, Object("MAP", mapRange, Some(inner)))];
    InnerMissed(parts, a, b, c, inner);
    JoinDotsHasDot(parts);
    assert parts[0..] == parts;
    assert FindItem(top, JoinDots(parts)).None?;
    assert StepItem(top, parts, 0) == Some(top[0]);
  }

  lemma InnerMissed(parts: seq<string>, a: string, b: string, c: string, inner: seq<YamlItem>)
    requires PlainSegment(a) && PlainSegment(b) && PlainSegment(c)
    requires |parts| == 4 && parts[1..] == [a, b, c]
    requires |inner| == 1 && inner[0].stringKey == a + "." + b
    ensures ResolveFrom(inner, parts, 1).None?
  {
    assert JoinDots([a, b, c]) == a + "." + b + "." + c by {
      assert JoinDots([a, b, c]) == a + "." + JoinDots([b, c]);
      assert JoinDots([b, c]) == b + "." + JoinDots([c]);
    }
    assert |a + "." + b| < |a + "." + b + "." + c|;
    assert FindItem(inner, JoinDots(parts[1..])).None?;
    assert (a + "." + b)[|a|] == '.';
    assert parts[1] == a;
    assert FindItem(inner, a).None?;
  }

  /** `en: {hello: hello}` with the key `hello` in locale `de` gives `null`. */
  lemma OtherLocaleMissing(range: Range, mapRange: Range)
    ensures KeyValueRange(
      YamlDocument(Some([YamlItem("en", Object("MAP", mapRange, Some([YamlItem("hello", Object("PLAIN", range, None))])))])),
      "hello", "de") == None
  {
    assert IndexOfChar("hello", '.') == 5;
    assert QueryPath("de", "hello") == ["de", "hello"];
    assert JoinDots(["de", "hello"]) == "de.hello";
  }
}
