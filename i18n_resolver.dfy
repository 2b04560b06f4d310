/**
 * The older all-folders resolver: it loads parsed locale files into one tree,
 * keyed by workspace-folder name, and regenerates the lookup map on request.
 */
module Resolver {
  import opened Wrappers
  import opened Text
  import opened Translations

  /** One locale file: its workspace-folder name and what parsing it gave; `None` when parsing threw. */
  datatype LoadedFile = LoadedFile(folder: string, parsed: Option<Translation>)

  /** Loading one file: a parse failure leaves the tree as it was. */
  function LoadFile(tree: Entries, file: LoadedFile): (r: Entries)
    ensures file.parsed.None? ==> r == tree
    ensures file.parsed.Some? ==> Node(r) == DeepMerge(Node(tree), Node([(file.folder, file.parsed.value)]))
  {
    if file.parsed.Some? then MergeObjects(tree, [(file.folder, file.parsed.value)]) else tree
  }

  /** Loading files one after the other. */
  function LoadAll(tree: Entries, files: seq<LoadedFile>): Entries
    decreases |files|
  {
    if files == [] then tree else LoadAll(LoadFile(tree, files[0]), files[1..])
  }

  /** The files that parsed. */
  function Parsed(files: seq<LoadedFile>): (r: seq<LoadedFile>)
    ensures forall f | f in r :: f in files && f.parsed.Some?
    ensures forall f | f in files && f.parsed.Some? :: f in r
  {
    if files == [] then []
    else (if files[0].parsed.Some? then [files[0]] else []) + Parsed(files[1..])
  }

  /** Files that fail to parse contribute nothing: loading all files is loading the parsed ones. */
  lemma {:induction false} LoadAllSkipsFailures(tree: Entries, files: seq<LoadedFile>)
    ensures LoadAll(tree, files) == LoadAll(tree, Parsed(files))
    decreases |files|
  {
    if files != [] {
      LoadAllSkipsFailures(LoadFile(tree, files[0]), files[1..]);
      if files[0].parsed.Some? {
        assert Parsed(files) == [files[0]] + Parsed(files[1..]);
        assert Parsed(files)[1..] == Parsed(files[1..]);
      } else {
        assert Parsed(files) == Parsed(files[1..]);
      }
    }
  }

  /** Loading well-formed parts keeps the tree well formed. */
  lemma {:induction false} LoadAllWellFormed(tree: Entries, files: seq<LoadedFile>)
    requires WellFormed(Node(tree))
    requires forall k | 0 <= k < |files| && files[k].parsed.Some? :: WellFormed(files[k].parsed.value)
    ensures WellFormed(Node(LoadAll(tree, files)))
    decreases |files|
  {
    if files != [] {
      if files[0].parsed.Some? {
        MergeWellFormed(Node(tree), Node([(files[0].folder, files[0].parsed.value)]));
      }
      assert forall k | 0 <= k < |files[1..]| :: files[1..][k] == files[k + 1];
      LoadAllWellFormed(LoadFile(tree, files[0]), files[1..]);
    }
  }

  class I18nResolver {
    var i18nTree: Entries
    var lookupMap: LookupMap

    /** The tree has unique keys everywhere; the lookup map may lag behind it until it is regenerated. */
    ghost predicate Valid()
      reads this
    {
      WellFormed(Node(i18nTree))
    }

    constructor ()
      ensures i18nTree == [] && lookupMap == [] && Valid()
    {
      i18nTree := [];
      lookupMap := [];
    }

    /** `init`: forget every translation. */
    method Init()
      modifies this
      ensures i18nTree == [] && lookupMap == [] && Valid()
    {
      i18nTree := [];
      lookupMap := [];
    }

    /**
     * The merge step of `loadYamlIntoTree`: the parsed content goes under its
     * workspace-folder name; when parsing throws, the tree is left as it was.
     * The lookup map is not touched.
     */
    method LoadYamlIntoTree(file: LoadedFile)
      requires Valid()
      requires file.parsed.Some? ==> WellFormed(file.parsed.value)
      modifies this
      ensures i18nTree == LoadFile(old(i18nTree), file)
      ensures lookupMap == old(lookupMap)
      ensures Valid()
    {
      if file.parsed.Some? {
        MergeWellFormed(Node(i18nTree), Node([(file.folder, file.parsed.value)]));
        i18nTree := MergeObjects(i18nTree, [(file.folder, file.parsed.value)]);
      }
    }

    /** `generateLookupMap`: flatten the whole tree. */
    method GenerateLookupMap()
      modifies this
      ensures i18nTree == old(i18nTree)
      ensures lookupMap == Flatten(Node(i18nTree))
    {
      lookupMap := Flatten(Node(i18nTree));
    }

    /** `load`: reset, load every file in turn, then flatten the result. */
    method Load(files: seq<LoadedFile>)
      requires forall k | 0 <= k < |files| && files[k].parsed.Some? :: WellFormed(files[k].parsed.value)
      modifies this
      ensures i18nTree == LoadAll([], files)
      ensures lookupMap == Flatten(Node(i18nTree))
      ensures Valid()
    {
      Init();
      var i := 0;
      while i < |files|
        invariant 0 <= i <= |files|
        invariant Valid()
        invariant LoadAll(i18nTree, files[i..]) == LoadAll([], files)
      {
        assert files[i..][1..] == files[i + 1..];
        LoadYamlIntoTree(files[i]);
        i := i + 1;
      }
      GenerateLookupMap();
    }

    /**
     * The lookup part of `getTranslationForKey`, for a given locale and folder:
     * `null` for an empty key, otherwise the lookup-map text under the joined
     * key parts `[folder, locale, ...key segments]`, else the result of walking the tree.
     */
    method GetTranslationForKey(key: string, locale: string, workspaceFolderName: string) returns (r: Lookup)
      ensures key == "" ==> r == Null
      ensures key != "" ==> r == TranslationAt(i18nTree, lookupMap, KeyParts([workspaceFolderName, locale], key))
      ensures (key != "" && Valid() && lookupMap == Flatten(Node(i18nTree)) && PlainKeys(Node(i18nTree)) &&
               '.' !in workspaceFolderName && '.' !in locale) ==>
        r == TreeAnswer(i18nTree, KeyParts([workspaceFolderName, locale], key))
    {
      if key == "" {
        return Null;
      }
      var keyParts := KeyParts([workspaceFolderName, locale], key);
      r := LookupTranslation(i18nTree, lookupMap, keyParts);
      if Valid() && lookupMap == Flatten(Node(i18nTree)) && PlainKeys(Node(i18nTree)) &&
        '.' !in workspaceFolderName && '.' !in locale
      {
        KeyPartsPlain([workspaceFolderName, locale], key);
        TranslationAtAgreesWithTree(i18nTree, lookupMap, keyParts);
      }
    }

    /** `getLookupMap`: the map as last generated; it is the tree's flattening once `load` has finished. */
    function GetLookupMap(): (r: LookupMap)
      reads this
      ensures r == lookupMap
    {
      lookupMap
    }
  }
}
