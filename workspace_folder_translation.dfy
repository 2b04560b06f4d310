/**
 * The translations of a single workspace folder: the tree's first level is the
 * locale, and the lookup map is flattened from it.
 */
module FolderTranslations {
  import opened Wrappers
  import opened Text
  import opened Translations

  /**
   * `merge.recursive(false, translation, part)`: the merge library skips an
   * argument that is not an object, so a part that is only a string changes nothing.
   */
  function MergePart(translation: Entries, part: Translation): (r: Entries)
    ensures part.Leaf? ==> r == translation
    ensures part.Node? ==> Node(r) == DeepMerge(Node(translation), part)
  {
    if part.Node? then MergeObjects(translation, part.entries) else translation
  }

  /**
   * No translation disappears in a merge unless the part itself puts something
   * at its path, and every translation of the part is present afterwards.
   */
  lemma MergePartTexts(translation: Entries, part: Translation, p: seq<string>, s: string)
    requires WellFormed(part) && part.Node?
    ensures Traverse(Node(MergePart(translation, part)), p) == Some(Leaf(s)) <==>
      Traverse(part, p) == Some(Leaf(s)) || (Traverse(Node(translation), p) == Some(Leaf(s)) && Untouched(part, p))
  {
    MergeLeafIff(Node(translation), part, p, s);
  }

  /** The locales present before a merge stay, in their order, with the part's new ones after them. */
  lemma MergePartLocales(translation: Entries, part: Translation)
    requires UniqueKeys(translation)
    ensures KeysOf(translation) <= KeysOf(MergePart(translation, part))
    ensures part.Node? ==> forall l :: l in KeysOf(MergePart(translation, part)) <==> l in KeysOf(translation) || l in KeysOf(part.entries)
  {
    if part.Node? {
      MergeKeys(translation, part.entries);
    }
  }

  class WorkspaceFolderTranslation {
    var workspaceFolder: string
    var translation: Entries
    var lookupMap: LookupMap

    /** The translation has unique keys everywhere and the lookup map is its flattening. */
    ghost predicate Valid()
      reads this
    {
      WellFormed(Node(translation)) && lookupMap == Flatten(Node(translation))
    }

    constructor (workspaceFolder: string)
      ensures this.workspaceFolder == workspaceFolder
      ensures translation == [] && lookupMap == [] && Valid()
    {
      this.workspaceFolder := workspaceFolder;
      translation := [];
      lookupMap := [];
    }

    /**
     * `mergeIntoI18nTree`: deep-merge a parsed part, then flatten the whole
     * translation again. The source file plays no part in the result.
     */
    method MergeIntoI18nTree(i18nTreePart: Translation, sourceFile: Option<string>)
      requires Valid() && WellFormed(i18nTreePart)
      modifies this
      ensures translation == MergePart(old(translation), i18nTreePart)
      ensures lookupMap == Flatten(Node(translation))
      ensures workspaceFolder == old(workspaceFolder)
      ensures Valid()
    {
      if i18nTreePart.Node? {
        MergeWellFormed(Node(translation), i18nTreePart);
      }
      translation := MergePart(translation, i18nTreePart);
      lookupMap := Flatten(Node(translation));
    }

    /** `getKeysStartingWith`: the lookup-map keys with `keyPart` as a literal prefix, in map order. */
    function GetKeysStartingWith(keyPart: string): (r: seq<string>)
      reads this
      ensures forall k :: k in r <==> Find(lookupMap, k).Some? && keyPart <= k
      ensures IsSubsequence(r, KeysOf(lookupMap))
    {
      KeysWithPrefix(KeysOf(lookupMap), keyPart)
    }

    /** `translationsForLocaleExist`: `locale` is a top-level key of the translation. */
    function TranslationsForLocaleExist(locale: string): (r: bool)
      reads this
      ensures r <==> locale != "" && Traverse(Node(translation), [locale]).Some?
    {
      HasLocale(translation, locale)
    }

    /** `getFallbackLocale`: the first locale, or `"en"` when there is none. */
    function GetFallbackLocale(): (r: string)
      reads this
      ensures translation == [] ==> r == "en"
      ensures translation != [] ==> r == KeysOf(translation)[0] && Traverse(Node(translation), [r]) == Some(translation[0].1)
    {
      FallbackFrom(translation)
    }

    /**
     * `getTranslation`: `null` for an empty key; otherwise the lookup-map text
     * under the joined key parts `[locale, ...key segments]`, else the result of
     * walking the translation. While it has no flat keys, the answer is the tree's own.
     */
    method GetTranslation(key: string, locale: string) returns (r: Lookup)
      ensures key == "" ==> r == Null
      ensures key != "" ==> r == TranslationAt(translation, lookupMap, KeyParts([locale], key))
      ensures key != "" && Valid() && PlainKeys(Node(translation)) && '.' !in locale ==>
        r == TreeAnswer(translation, KeyParts([locale], key))
    {
      if key == "" {
        return Null;
      }
      var keyParts := KeyParts([locale], key);
      r := LookupTranslation(translation, lookupMap, keyParts);
      if Valid() && PlainKeys(Node(translation)) && '.' !in locale {
        KeyPartsPlain([locale], key);
        TranslationAtAgreesWithTree(translation, lookupMap, keyParts);
      }
    }

    /** `lookupKey`: the lookup-map entry under the full dotted key. */
    function LookupKey(key: string): (r: Option<string>)
      reads this
      ensures r.Some? <==> key in KeysOf(lookupMap)
      ensures r.Some? ==> (key, r.value) in lookupMap
    {
      Find(lookupMap, key)
    }
  }
}
