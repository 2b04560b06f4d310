/**
 * The older default-locale detector: it takes the first locale configured in
 * the Rails configuration files and falls back to a top-level key of the tree
 * it is given when that locale has no translations.
 */
module I18nDefaultLocales {
  import opened Wrappers
  import opened Text
  import opened Translations
  import opened I18nIndex
  import Config = RailsConfig

  /** `translationsForLocaleExistInTree`: `locale` is a top-level key; `!!find` never counts the empty key. */
  function TranslationsForLocaleExistInTree(locale: string, tree: Entries): (r: bool)
    ensures r <==> locale != "" && Find(tree, locale).Some?
  {
    HasLocale(tree, locale)
  }

  /** `getFallbackLocaleFromTree`: the first top-level key, `undefined` for an empty tree; there is no `"en"` default here. */
  function FallbackLocaleFromTree(tree: Entries): (r: Option<string>)
    ensures r.None? <==> tree == []
    ensures r.Some? ==> r.value == KeysOf(tree)[0] && Find(tree, r.value) == Some(tree[0].1)
  {
    if tree == [] then None else Some(tree[0].0)
  }

  /**
   * The choice in `detectDefaultLocaleWithFallback`: a detected locale with
   * translations is kept; one without, or no detected locale at all, becomes the
   * first key of the tree; without a tree the detected value is returned as is.
   */
  function LocaleWithFallback(tree: Option<Entries>, locale: Option<string>): (r: Option<string>)
    ensures tree.None? ==> r == locale
    ensures tree.Some? && Truthy(locale) && TranslationsForLocaleExistInTree(locale.value, tree.value) ==> r == locale
    ensures tree.Some? && !(Truthy(locale) && TranslationsForLocaleExistInTree(locale.value, tree.value)) ==>
      r == FallbackLocaleFromTree(tree.value)
  {
    if tree.None? then locale
    else
      var t := tree.value;
      var checked := if Truthy(locale) && !TranslationsForLocaleExistInTree(locale.value, t) then FallbackLocaleFromTree(t) else locale;
      if !Truthy(checked) then FallbackLocaleFromTree(t) else checked
  }

  /** With a non-empty tree, the chosen locale is always one of its top-level keys. */
  lemma ChosenLocaleInTree(tree: Entries, locale: Option<string>)
    requires tree != []
    ensures LocaleWithFallback(Some(tree), locale).Some?
    ensures LocaleWithFallback(Some(tree), locale).value in KeysOf(tree)
  {
  }

  /** Choosing again from the chosen locale changes nothing. */
  lemma LocaleWithFallbackIdempotent(tree: Option<Entries>, locale: Option<string>)
    ensures LocaleWithFallback(tree, LocaleWithFallback(tree, locale)) == LocaleWithFallback(tree, locale)
  {
  }

  /** Index of the first file in which a locale was found, or `|files|`. */
  function FirstFound(files: seq<Config.Detection>): (i: nat)
    ensures i <= |files|
    ensures forall j | 0 <= j < i :: !files[j].Found?
    ensures i < |files| ==> files[i].Found?
  {
    if files == [] then 0 else if files[0].Found? then 0 else 1 + FirstFound(files[1..])
  }

  /** How the promise of `detectDefaultLocale` settles. */
  datatype Detected = Rejected | Resolved(locale: Option<string>)

  /**
   * `detectDefaultLocale`, given what `detectConfigurationInDocument` does with
   * each configuration file, in file order: `Promise.all` rejects as soon as one
   * file throws; otherwise the result is the first value that is not `null`
   * (an empty string counts), or `undefined`.
   */
  function DetectDefaultLocale(files: seq<Config.Detection>): (r: Detected)
    ensures r.Rejected? <==> exists k | 0 <= k < |files| :: files[k].Threw?
    ensures r.Resolved? && r.locale.Some? ==> exists k | 0 <= k < |files| :: files[k] == Config.Found(r.locale.value)
    ensures r.Resolved? && r.locale.Some? ==> forall k | 0 <= k < |files| && files[k].Found? ::
      exists j | 0 <= j <= k :: files[j] == Config.Found(r.locale.value)
    ensures r.Resolved? && r.locale.None? ==> forall k | 0 <= k < |files| :: files[k].NoMatch?
  {
    if exists k | 0 <= k < |files| :: files[k].Threw? then Rejected
    else
      var i := FirstFound(files);
      Resolved(if i == |files| then None else Some(files[i].locale))
  }

  /** `detectDefaultLocaleWithFallback`: the detected locale, checked against the tree. */
  function DetectDefaultLocaleWithFallback(tree: Option<Entries>, files: seq<Config.Detection>): (r: Detected)
    ensures r.Rejected? <==> DetectDefaultLocale(files).Rejected?
    ensures r.Resolved? ==> r.locale == LocaleWithFallback(tree, DetectDefaultLocale(files).locale)
  {
    match DetectDefaultLocale(files)
    case Rejected => Rejected
    case Resolved(locale) => Resolved(LocaleWithFallback(tree, locale))
  }

  /** A configured locale that has translations in the tree is the answer, however many files follow. */
  lemma ConfiguredLocaleKept(tree: Entries, files: seq<Config.Detection>, k: nat)
    requires k < |files| && files[k].Found? && TranslationsForLocaleExistInTree(files[k].locale, tree)
    requires forall j | 0 <= j < k :: files[j].NoMatch?
    requires forall j | k < j < |files| :: !files[j].Threw?
    ensures DetectDefaultLocaleWithFallback(Some(tree), files) == Resolved(Some(files[k].locale))
  {
    assert FirstFound(files) == k;
  }

  /**
   * What `loadDefaultLocale` of the older resolver does: it hands its whole tree,
   * whose top-level keys are workspace-folder names, to the detector.
   */
  function ResolverDefaultLocaleAsWritten(i18nTree: Entries, files: seq<Config.Detection>): (r: Detected)
    ensures r.Rejected? <==> DetectDefaultLocale(files).Rejected?
    ensures i18nTree != [] && r.Resolved? ==> r.locale.Some? && r.locale.value in KeysOf(i18nTree)
  {
    var r := DetectDefaultLocaleWithFallback(Some(i18nTree), files);
    if i18nTree != [] && r.Resolved? then ChosenLocaleInTree(i18nTree, DetectDefaultLocale(files).locale); r else r
  }

  /**
   * With one folder `blog` holding English translations and `en` configured, the
   * resolver's default locale comes out as the folder name `blog`.
   */
  lemma ResolverPicksFolderName()
    ensures ResolverDefaultLocaleAsWritten([("blog", Node([("en", Node([("hello", Leaf("Hello"))]))]))], [Config.Found("en")]) ==
      Resolved(Some("blog"))
  {
    var tree := [("blog", Node([("en", Node([("hello", Leaf("Hello"))]))]))];
    assert KeysOf(tree) == ["blog"];
    assert !TranslationsForLocaleExistInTree("en", tree);
    assert DetectDefaultLocale([Config.Found("en")]) == Resolved(Some("en")) by {
      assert FirstFound([Config.Found("en")]) == 0;
    }
  }

  /**
   * The evidently intended use: the locales of one workspace folder are checked,
   * so the translation-root level of that folder is what the fallback picks from.
   */
  function ResolverDefaultLocale(i18nTree: Entries, folder: string, files: seq<Config.Detection>): (r: Detected)
    ensures r.Rejected? <==> DetectDefaultLocale(files).Rejected?
    ensures FolderEntries(i18nTree, folder).Some? && FolderEntries(i18nTree, folder).value != [] && r.Resolved? ==>
      r.locale.Some? && FolderHasLocaleKey(i18nTree, folder, r.locale.value)
  {
    var es := FolderEntries(i18nTree, folder);
    var r := DetectDefaultLocaleWithFallback(es, files);
    if es.Some? && es.value != [] && r.Resolved? then ChosenLocaleInTree(es.value, DetectDefaultLocale(files).locale); r else r
  }

  /** `locale` is a locale of the folder (a key of its translations). */
  predicate FolderHasLocaleKey(i18nTree: Entries, folder: string, locale: string)
  {
    FolderEntries(i18nTree, folder).Some? && locale in KeysOf(FolderEntries(i18nTree, folder).value)
  }

  /** For the `blog` folder of the example, the configured `en` is kept. */
  lemma ResolverKeepsConfiguredLocale()
    ensures ResolverDefaultLocale([("blog", Node([("en", Node([("hello", Leaf("Hello"))]))]))], "blog", [Config.Found("en")]) ==
      Resolved(Some("en"))
  {
    var tree := [("blog", Node([("en", Node([("hello", Leaf("Hello"))]))]))];
    var es := [("en", Node([("hello", Leaf("Hello"))]))];
    assert FolderEntries(tree, "blog") == Some(es);
    assert KeysOf(es) == ["en"];
    assert TranslationsForLocaleExistInTree("en", es);
    assert DetectDefaultLocale([Config.Found("en")]) == Resolved(Some("en")) by {
      assert FirstFound([Config.Found("en")]) == 0;
    }
  }
}
