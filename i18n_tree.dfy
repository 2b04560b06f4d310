/**
 * The translation index of all workspace folders: one tree whose first level is
 * the workspace-folder name, and the lookup map flattened from it.
 */
module I18nIndex {
  import opened Wrappers
  import opened Text
  import opened Translations

  /** The translations of one workspace folder, when they form an object. */
  function FolderEntries(root: Entries, folder: string): Option<Entries>
  {
    var v: Option<Translation> := Find(root, folder);
    if v.Some? && v.value.Node? then Some(v.value.entries) else None
  }

  /** `translationsForLocaleExist`: the folder holds an object with `locale` among its keys. */
  function LocaleExists(root: Entries, locale: string, folder: string): (r: bool)
    ensures r <==> locale != "" && Traverse(Node(root), [folder, locale]).Some?
  {
    assert [folder, locale][1..] == [locale];
    match FolderEntries(root, folder)
    case Some(es) => HasLocale(es, locale)
    case None => false
  }

  /** `getFallbackLocale`: the first locale of the folder, or `"en"` when it has none. */
  function FolderFallback(root: Entries, folder: string): (r: string)
    ensures FolderEntries(root, folder).Some? && FolderEntries(root, folder).value != [] ==>
      r == KeysOf(FolderEntries(root, folder).value)[0] && Traverse(Node(root), [folder, r]).Some?
    ensures FolderEntries(root, folder).None? || FolderEntries(root, folder).value == [] ==> r == "en"
  {
    match FolderEntries(root, folder)
    case Some(es) => FallbackFrom(es)
    case None => "en"
  }

  /** Merging `part` under `folder` into the whole tree. */
  function MergeFolder(root: Entries, folder: string, part: Translation): Entries
  {
    MergeObjects(root, [(folder, part)])
  }

  /** The merged part's own translations are all present after the merge, under the folder. */
  lemma MergeFolderAdds(root: Entries, folder: string, part: Translation, p: seq<string>, s: string)
    requires WellFormed(part) && Traverse(part, p) == Some(Leaf(s))
    ensures Traverse(Node(MergeFolder(root, folder, part)), [folder] + p) == Some(Leaf(s))
  {
    var extend := Node([(folder, part)]);
    assert Traverse(extend, [folder] + p) == Some(Leaf(s)) by {
      assert ([folder] + p)[1..] == p;
    }
    MergeLeafIff(Node(root), extend, [folder] + p, s);
  }

  /**
   * A translation already in the tree survives merging a part under its folder
   * as long as the part leaves its path alone; translations of other folders
   * always survive.
   */
  lemma MergeFolderKeeps(root: Entries, folder: string, part: Translation, p: seq<string>, s: string)
    requires Traverse(Node(root), p) == Some(Leaf(s))
    requires p != [] && (p[0] != folder || Untouched(part, p[1..]))
    requires WellFormed(part)
    ensures Traverse(Node(MergeFolder(root, folder, part)), p) == Some(Leaf(s))
  {
    var extend := Node([(folder, part)]);
    assert Untouched(extend, p);
    MergeLeafIff(Node(root), extend, p, s);
  }

  /** The folder names are listed in first-merge order; merging a known folder again changes nothing in the list. */
  lemma MergeFolderNames(root: Entries, folder: string, part: Translation)
    ensures KeysOf(MergeFolder(root, folder, part)) ==
      if folder in KeysOf(root) then KeysOf(root) else KeysOf(root) + [folder]
  {
    MergeSingleKey(root, folder, part);
  }

  /** Merging an object into a folder that already has locales keeps its fallback locale. */
  lemma MergeFolderKeepsFallback(root: Entries, folder: string, part: Translation)
    requires UniqueKeys(root) && part.Node?
    requires FolderEntries(root, folder).Some? && FolderEntries(root, folder).value != []
    ensures FolderFallback(MergeFolder(root, folder, part), folder) == FolderFallback(root, folder)
  {
    var es := FolderEntries(root, folder).value;
    FindMerge(root, [(folder, part)], folder);
    assert DeepMerge(Node(es), part) == Node(MergeObjects(es, part.entries));
    FallbackStable(es, part.entries);
  }

  /** Merging a part without flat keys keeps the whole tree well formed and free of flat keys. */
  lemma MergeFolderPlain(root: Entries, folder: string, part: Translation)
    requires WellFormed(Node(root)) && PlainKeys(Node(root))
    requires WellFormed(part) && PlainKeys(part) && folder != "" && '.' !in folder
    ensures WellFormed(Node(MergeFolder(root, folder, part))) && PlainKeys(Node(MergeFolder(root, folder, part)))
  {
    MergeWellFormed(Node(root), Node([(folder, part)]));
    MergePlainKeys(Node(root), Node([(folder, part)]));
  }

  /**
   * `lookupKey` after a merge still finds a translation the tree had, under its
   * dotted path, when the part leaves that path alone.
   */
  lemma LookupKeepsAfterMerge(root: Entries, folder: string, part: Translation, p: seq<string>, s: string)
    requires WellFormed(Node(root)) && PlainKeys(Node(root))
    requires WellFormed(part) && PlainKeys(part) && folder != "" && '.' !in folder
    requires Traverse(Node(root), p) == Some(Leaf(s))
    requires p != [] && (p[0] != folder || Untouched(part, p[1..]))
    ensures Find(Flatten(Node(MergeFolder(root, folder, part))), JoinDots(p)) == Some(s)
  {
    MergeFolderKeeps(root, folder, part, p, s);
    MergeFolderPlain(root, folder, part);
    FlattenExact(Node(MergeFolder(root, folder, part)), p, s);
  }

  /** `lookupKey` after a merge finds every translation of the part under `folder.` and its dotted path. */
  lemma LookupAddsAfterMerge(root: Entries, folder: string, part: Translation, p: seq<string>, s: string)
    requires WellFormed(Node(root)) && PlainKeys(Node(root))
    requires WellFormed(part) && PlainKeys(part) && folder != "" && '.' !in folder
    requires Traverse(part, p) == Some(Leaf(s))
    ensures Find(Flatten(Node(MergeFolder(root, folder, part))), JoinDots([folder] + p)) == Some(s)
  {
    MergeFolderAdds(root, folder, part, p, s);
    MergeFolderPlain(root, folder, part);
    FlattenExact(Node(MergeFolder(root, folder, part)), [folder] + p, s);
  }

  class I18nTree {
    var i18nTree: Entries
    var i18nLookupMap: LookupMap

    /** The tree has unique keys everywhere and the lookup map is its flattening. */
    ghost predicate Valid()
      reads this
    {
      WellFormed(Node(i18nTree)) && i18nLookupMap == Flatten(Node(i18nTree))
    }

    constructor ()
      ensures i18nTree == [] && i18nLookupMap == [] && Valid()
    {
      i18nTree := [];
      i18nLookupMap := [];
    }

    /** `init`: forget every translation. */
    method Init()
      modifies this
      ensures i18nTree == [] && i18nLookupMap == [] && Valid()
    {
      i18nTree := [];
      i18nLookupMap := [];
    }

    /** `mergeIntoI18nTree`: deep-merge a parsed part under its folder, then flatten the whole tree again. */
    method MergeIntoI18nTree(i18nTreePart: Translation, workspaceFolderName: string)
      requires Valid() && WellFormed(i18nTreePart)
      modifies this
      ensures i18nTree == MergeFolder(old(i18nTree), workspaceFolderName, i18nTreePart)
      ensures i18nLookupMap == Flatten(Node(i18nTree))
      ensures Valid()
    {
      MergeWellFormed(Node(i18nTree), Node([(workspaceFolderName, i18nTreePart)]));
      i18nTree := MergeFolder(i18nTree, workspaceFolderName, i18nTreePart);
      i18nLookupMap := Flatten(Node(i18nTree));
    }

    /** `getKeysStartingWith`: the lookup-map keys with `keyPart` as a literal prefix, in map order. */
    function GetKeysStartingWith(keyPart: string): (r: seq<string>)
      reads this
      ensures forall k :: k in r <==> Find(i18nLookupMap, k).Some? && keyPart <= k
      ensures IsSubsequence(r, KeysOf(i18nLookupMap))
    {
      KeysWithPrefix(KeysOf(i18nLookupMap), keyPart)
    }

    /** `translationsForLocaleExist`: the folder holds an object with `locale` among its keys. */
    function TranslationsForLocaleExist(locale: string, workspaceFolderName: string): (r: bool)
      reads this
      ensures r <==> locale != "" && Traverse(Node(i18nTree), [workspaceFolderName, locale]).Some?
    {
      LocaleExists(i18nTree, locale, workspaceFolderName)
    }

    /** `getFallbackLocale`: the folder's first locale, or `"en"` when it has none. */
    function GetFallbackLocale(workspaceFolderName: string): (r: string)
      reads this
      ensures var es := FolderEntries(i18nTree, workspaceFolderName);
        if es.Some? && es.value != [] then r == KeysOf(es.value)[0] && Traverse(Node(i18nTree), [workspaceFolderName, r]).Some?
        else r == "en"
    {
      FolderFallback(i18nTree, workspaceFolderName)
    }

    /**
     * `getTranslation`: `null` for an empty key; otherwise the lookup-map text
     * under the joined key parts `[folder, locale, ...key segments]`, else the
     * result of walking the tree. While the tree has no flat keys, the answer is
     * the tree's own.
     */
    method GetTranslation(key: string, locale: string, workspaceFolderName: string) returns (r: Lookup)
      ensures key == "" ==> r == Null
      ensures key != "" ==> r == TranslationAt(i18nTree, i18nLookupMap, KeyParts([workspaceFolderName, locale], key))
      ensures key != "" && Valid() && PlainKeys(Node(i18nTree)) && '.' !in workspaceFolderName && '.' !in locale ==>
        r == TreeAnswer(i18nTree, KeyParts([workspaceFolderName, locale], key))
    {
      if key == "" {
        return Null;
      }
      var keyParts := KeyParts([workspaceFolderName, locale], key);
      r := LookupTranslation(i18nTree, i18nLookupMap, keyParts);
      if Valid() && PlainKeys(Node(i18nTree)) && '.' !in workspaceFolderName && '.' !in locale {
        KeyPartsPlain([workspaceFolderName, locale], key);
        TranslationAtAgreesWithTree(i18nTree, i18nLookupMap, keyParts);
      }
    }

    /** `getWorkspaceFolderNames`: the folder names, without repetition. */
    function GetWorkspaceFolderNames(): (r: seq<string>)
      reads this
      ensures Valid() ==> Distinct(r)
      ensures forall f :: f in r <==> Find(i18nTree, f).Some?
    {
      KeysOf(i18nTree)
    }

    /** `lookupKey`: the lookup-map entry under the full dotted key. */
    function LookupKey(key: string): (r: Option<string>)
      reads this
      ensures r.Some? <==> key in KeysOf(i18nLookupMap)
      ensures r.Some? ==> (key, r.value) in i18nLookupMap
    {
      Find(i18nLookupMap, key)
    }
  }
}
