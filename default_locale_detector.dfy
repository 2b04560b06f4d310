/**
 * The per-folder default-locale detector: for every workspace folder it keeps
 * the detected locale when the folder has translations for it, and the folder's
 * fallback locale otherwise, in a map keyed by the folder's path.
 */
module DefaultLocales {
  import opened Wrappers
  import opened Text
  import opened Translations
  import opened I18nIndex

  /**
   * `getFallbackLocaleIfNotAvailable`: a detected locale the folder has
   * translations for is kept; one it has none for, and a missing or empty one,
   * become the folder's fallback locale; without a tree nothing changes.
   */
  function FallbackLocaleIfNotAvailable(i18nTree: Option<Entries>, locale: Option<string>, folder: string): (r: Option<string>)
    ensures i18nTree.None? ==> r == locale
    ensures i18nTree.Some? && Truthy(locale) && LocaleExists(i18nTree.value, locale.value, folder) ==> r == locale
    ensures i18nTree.Some? && !(Truthy(locale) && LocaleExists(i18nTree.value, locale.value, folder)) ==>
      r == Some(FolderFallback(i18nTree.value, folder))
  {
    if i18nTree.None? then locale
    else
      var tree := i18nTree.value;
      var checked := if Truthy(locale) && !LocaleExists(tree, locale.value, folder) then Some(FolderFallback(tree, folder)) else locale;
      if !Truthy(checked) then Some(FolderFallback(tree, folder)) else checked
  }

  /**
   * When the folder's first locale is a real key, the locale chosen for the folder
   * always has translations there.
   */
  lemma ChosenLocaleAvailable(i18nTree: Entries, locale: Option<string>, folder: string)
    requires FolderEntries(i18nTree, folder).Some? && FolderEntries(i18nTree, folder).value != []
    requires KeysOf(FolderEntries(i18nTree, folder).value)[0] != ""
    ensures FallbackLocaleIfNotAvailable(Some(i18nTree), locale, folder).Some?
    ensures LocaleExists(i18nTree, FallbackLocaleIfNotAvailable(Some(i18nTree), locale, folder).value, folder)
  {
  }

  /** Choosing again from the chosen locale changes nothing. */
  lemma FallbackLocaleIdempotent(i18nTree: Option<Entries>, locale: Option<string>, folder: string)
    ensures FallbackLocaleIfNotAvailable(i18nTree, FallbackLocaleIfNotAvailable(i18nTree, locale, folder), folder) ==
      FallbackLocaleIfNotAvailable(i18nTree, locale, folder)
  {
  }

  /** What detection found for one workspace folder: its URI path, its name and the detected locale, if any. */
  datatype FolderConfig = FolderConfig(path: string, folderName: string, locale: Option<string>)

  /** The map after the entries of `configs` were written into `defaults` one after the other. */
  function WithDetected(defaults: map<string, Option<string>>, i18nTree: Option<Entries>, configs: seq<FolderConfig>): map<string, Option<string>>
    decreases |configs|
  {
    if configs == [] then defaults
    else
      var c := configs[|configs| - 1];
      WithDetected(defaults, i18nTree, configs[..|configs| - 1])[c.path := FallbackLocaleIfNotAvailable(i18nTree, c.locale, c.folderName)]
  }

  /** Writing the configs adds exactly their paths to the map's keys. */
  lemma {:induction false} WithDetectedKeys(defaults: map<string, Option<string>>, i18nTree: Option<Entries>, configs: seq<FolderConfig>, p: string)
    ensures p in WithDetected(defaults, i18nTree, configs) <==> p in defaults || exists k | 0 <= k < |configs| :: configs[k].path == p
    decreases |configs|
  {
    if configs != [] {
      var init := configs[..|configs| - 1];
      WithDetectedKeys(defaults, i18nTree, init, p);
      if exists k | 0 <= k < |configs| :: configs[k].path == p {
        var k :| 0 <= k < |configs| && configs[k].path == p;
        if k < |configs| - 1 {
          assert init[k].path == p;
        }
      }
    }
  }

  /** An entry for a path no config names is left as it was. */
  lemma {:induction false} WithDetectedOthers(defaults: map<string, Option<string>>, i18nTree: Option<Entries>, configs: seq<FolderConfig>, p: string)
    requires p in defaults
    requires forall k | 0 <= k < |configs| :: configs[k].path != p
    ensures p in WithDetected(defaults, i18nTree, configs)
    ensures WithDetected(defaults, i18nTree, configs)[p] == defaults[p]
    decreases |configs|
  {
    if configs != [] {
      WithDetectedOthers(defaults, i18nTree, configs[..|configs| - 1], p);
    }
  }

  /** The entry of a config's path holds the locale chosen for the last config with that path. */
  lemma {:induction false} WithDetectedLast(defaults: map<string, Option<string>>, i18nTree: Option<Entries>, configs: seq<FolderConfig>, k: nat)
    requires k < |configs|
    requires forall j | k < j < |configs| :: configs[j].path != configs[k].path
    ensures configs[k].path in WithDetected(defaults, i18nTree, configs)
    ensures WithDetected(defaults, i18nTree, configs)[configs[k].path] ==
      FallbackLocaleIfNotAvailable(i18nTree, configs[k].locale, configs[k].folderName)
    decreases |configs|
  {
    if k < |configs| - 1 {
      var init := configs[..|configs| - 1];
      WithDetectedLast(defaults, i18nTree, init, k);
    }
  }

  class DefaultLocaleDetector {
    var workspaceFolderDefaults: map<string, Option<string>>

    constructor ()
      ensures workspaceFolderDefaults == map[]
    {
      workspaceFolderDefaults := map[];
    }

    /**
     * The map update of `detectDefaultLocaleWithFallback`: for each detected
     * folder in turn, the chosen locale is written under the folder's path; the
     * map is returned.
     */
    method DetectDefaultLocaleWithFallback(i18nTree: Option<Entries>, configs: seq<FolderConfig>) returns (defaults: map<string, Option<string>>)
      modifies this
      ensures workspaceFolderDefaults == WithDetected(old(workspaceFolderDefaults), i18nTree, configs)
      ensures defaults == workspaceFolderDefaults
    {
      var i := 0;
      while i < |configs|
        invariant 0 <= i <= |configs|
        invariant workspaceFolderDefaults == WithDetected(old(workspaceFolderDefaults), i18nTree, configs[..i])
      {
        var config := configs[i];
        var locale := FallbackLocaleIfNotAvailable(i18nTree, config.locale, config.folderName);
        assert configs[..i + 1][..i] == configs[..i];
        workspaceFolderDefaults := workspaceFolderDefaults[config.path := locale];
        i := i + 1;
      }
      assert configs[..|configs|] == configs;
      defaults := workspaceFolderDefaults;
    }
  }
}
