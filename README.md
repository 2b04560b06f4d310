# rails-i18n translation index, modelled in Dafny

This project models the core of a VS Code extension for Rails i18n. The extension
reads a workspace's YAML locale files, keeps their translations in an index, and
resolves translation keys for hovers, completion and go-to-definition.

The model covers:

- **The nested translation tree.** Its values are strings or objects; an object is
  an ordered association list, so JavaScript `Object.keys` order is explicit.
- **The deep merge** (`merge.recursive`) that combines parsed YAML files.
- **The flattened lookup map** (`flat`): every text under the dot-join of its path.
- **The lookup pipeline** of `getTranslation` / `getTranslationForKey`. It tries
  the lookup map first, then walks the tree one segment at a time, and renders a
  mapping as `key: value` lines.
- **The three classes that hold a tree and a lookup map:**
  - `I18nTree`: all workspace folders in one tree, first level = folder name.
  - `WorkspaceFolderTranslation`: one folder, first level = locale.
  - The older `I18nResolver`.
- **The YAML key-range resolver** (`findKeyValueRangeInYamlDocument`), with
  support for flat keys such as `hello.world: …`.
- **Relative keys in view templates** (`makeAbsoluteKey`, `getRelativeKeyPart`).
- **The default-locale rules:**
  - extraction of the locale from the matched `config.i18n.default_locale = :xx` line;
  - the success/failure rule of the config-file parser;
  - the first-found rule over configuration files;
  - the fallback to an available locale, in both locale detectors.

Module layout, one file per source file plus two shared modules:

| file | module | source |
|---|---|---|
| `wrappers.dfy` | `Wrappers` | an `Option` type |
| `text.dfy` | `Text` | the JavaScript string operations the sources use (`split`, `join`, `filter`, `replace`, `trim`, `indexOf`) |
| `translations.dfy` | `Translations` | the shared tree, merge, flatten and lookup pipeline (`merge.recursive`, `flat`, `makeKeyParts`, `traverseThroughMap`, `transformMultiResultIntoText`) |
| `i18n_tree.dfy` | `I18nIndex` | `src/i18nTree.ts` |
| `workspace_folder_translation.dfy` | `FolderTranslations` | `src/workspaceFolderTranslation.ts` |
| `i18n_resolver.dfy` | `Resolver` | `src/i18nResolver.ts` |
| `definition_provider.dfy` | `DefinitionProvider` | `src/i18nDefinitionProvider.ts` |
| `key_detector.dfy` | `KeyDetection` | `src/keyDetector.ts` |
| `rails_config_file_parser.dfy` | `RailsConfig` | `src/railsConfigFileParser.ts` |
| `i18n_default_locale_detector.dfy` | `I18nDefaultLocales` | `src/i18nDefaultLocaleDetector.ts` |
| `default_locale_detector.dfy` | `DefaultLocales` | `src/defaultLocaleDetector.ts` |

Inputs that come from the editor or a parser are parameters:

- the parsed YAML value (`Translation`) or AST (`YamlDocument`);
- the workspace-folder name;
- the line a regular expression matched;
- what each configuration file gave.

Modelling decisions:

- **Lookup results.** `null` and `undefined` are kept apart where the source
  returns them (`Lookup = Null | Undefined | Text`). A missing map entry is `None`.
- **Flat keys in a tree.** A key containing a dot makes lookup-map keys collide.
  `flat` assigns its keys in depth-first order, so the later leaf wins. The model
  follows that order (`Translations.LaterLeafWinsCollision`).
- **Lookup map against tree walk.** The theorems that make the lookup map agree
  with the tree walk assume `PlainKeys`: every key non-empty and free of dots.

## Model

| member | source | states |
|---|---|---|
| `Text.Split` | src/i18nTree.ts:83 | `split`: at least one field, and no field holds the separator |
| `Text.JoinSplit` | src/i18nTree.ts:57 | joining the fields of a split with the separator gives the string back |
| `Text.SplitJoin` | src/keyDetector.ts:58-65 | splitting a join of separator-free fields gives the fields back |
| `Text.RemoveEmpty` | src/i18nTree.ts:86 | `filter(k => k.length > 0)`: exactly the non-empty elements remain, and a list without empty elements is unchanged |
| `Text.RemoveEmptyAppend` | src/i18nTree.ts:86 | filtering a concatenation filters each part and keeps their order, so order and repetitions survive as in `filter` |
| `Text.RemoveEmptyOne` | src/i18nTree.ts:86 | a single element is kept exactly when it is not empty |
| `Text.JoinDotsInjective` | src/i18nTree.ts:57 | different lists of non-empty, dot-free segments have different dotted keys |
| `Text.IndexOf` | src/keyDetector.ts:54 | the index of the first occurrence of a substring, or the length when there is none |
| `Text.SecondField` | src/keyDetector.ts:54 | `split("views")[1]` is `undefined` exactly when the substring does not occur |
| `Text.ReplaceChars` | src/keyDetector.ts:54 | `replace(/\\|\//g, ".")`: same length, each listed character replaced, every other kept |
| `Text.RemoveChars` | src/railsConfigFileParser.ts:34 | `replace(/…/g, "")`: none of the deleted characters remains |
| `Text.RemoveCharsAppend` | src/railsConfigFileParser.ts:34 | deleting characters from a concatenation deletes them from each part |
| `Text.Trim` | src/railsConfigFileParser.ts:32-34 | `trim`: no leading or trailing white space remains; an already trimmed string is unchanged |
| `Text.TrimKeeps` | src/railsConfigFileParser.ts:34 | trimming introduces no character the string did not hold |
| `Translations.Find` | src/i18nTree.ts:79 | `m[k]` is present exactly when `k` is one of the keys, and then it is the value stored under `k` |
| `Translations.Put` | src/i18nTree.ts:16-22 | after `m[k] = v`, `k` holds `v` and every other key holds what it held before |
| `Translations.PutKeys` | src/i18nTree.ts:16-22 | an existing key keeps its position, a new key is appended |
| `Translations.TraverseThroughMap` | src/i18nTree.ts:90-98 | the forEach loop reaches the value of the segment-by-segment walk; once `undefined`, it stays `undefined` |
| `Translations.TraverseAppend` | src/workspaceFolderTranslation.ts:84-92 | walking `p + q` is walking `p`, then `q` from where `p` ended |
| `Translations.MergeKeys` | src/i18nTree.ts:16-22 | after a merge, the old keys come first in their order, and the keys are exactly those of either side, each once |
| `Translations.FindMerge` | src/i18nTree.ts:16-22 | the value under each key after a merge: the part's value, merged into the old one when both are objects |
| `Translations.MergeSingleKey` | src/i18nTree.ts:19-21 | merging `{[folder]: part}` keeps the key list, or appends the folder when it is new |
| `Translations.MergeWellFormed` | src/i18nTree.ts:16-22 | a merge of trees with unique keys has unique keys |
| `Translations.MergeLeafIff` | src/workspaceFolderTranslation.ts:21-25 | a text is present after a merge exactly when the part holds it, or the base held it and the part leaves its path alone |
| `Translations.MergePlainKeys` | src/i18nTree.ts:16-22 | merging trees without flat keys gives a tree without flat keys |
| `Translations.LeavesComplete` | src/lookupMapGenerator.ts:12-14 | every text of the tree is listed under the flattened key of its path |
| `Translations.LeavesSound` | src/lookupMapGenerator.ts:12-14 | everything listed is a text of the tree under the flattened key of its path |
| `Translations.AssignFind` | src/lookupMapGenerator.ts:12-14 | assigning the listed pairs one by one defines exactly their keys, with a listed value |
| `Translations.FlattenComplete` | src/i18nTree.ts:23 | every text of the tree has the flattened key of its path in the lookup map |
| `Translations.FlattenSound` | src/i18nTree.ts:23 | every lookup-map entry is a text of the tree, under the flattened key of its path |
| `Translations.FlatPathIsJoin` | src/i18nTree.ts:57 | the flattened key of a path is its `join(".")` |
| `Translations.FlattenExact` | src/i18nTree.ts:23 | in a tree without flat keys, the lookup map holds each text under the dot-join of its path |
| `Translations.FlattenMisses` | src/i18nTree.ts:59-60 | in a tree without flat keys, a path to a mapping or to nothing has no lookup-map entry |
| `Translations.TraversePlain` | src/i18nTree.ts:90-98 | every path that exists in a tree without flat keys is made of plain segments |
| `Translations.LinesAppend` | src/i18nTree.ts:104-111 | the lines of two runs of children are the lines of each, in order |
| `Translations.LinesMembers` | src/i18nTree.ts:104-111 | a `k: v` line appears exactly for each string child; object children give none |
| `Translations.TransformMultiResultIntoText` | src/i18nTree.ts:100-113 | the loop pushes one `k: v` line per string child, in key order, and joins them with newlines |
| `Translations.KeyPartsOfDottedKey` | src/i18nTree.ts:82-88 | a dotted key of plain segments comes back as the leading parts followed by its segments |
| `Translations.KeyPartsPlain` | src/workspaceFolderTranslation.ts:77-82 | with dot-free leading parts, every key part is non-empty and dot-free |
| `Translations.LookupTranslation` | src/i18nTree.ts:56-71 | the lookup-map string under the joined key, else the tree walk: text, rendered mapping or `undefined` |
| `Translations.TranslationAtAgreesWithTree` | src/i18nTree.ts:56-71 | when the map is the tree's flattening and the tree has no flat keys, the map fast path answers what the tree walk answers |
| `Translations.LaterLeafWinsCollision` | src/lookupMapGenerator.ts:12-14 | with a flat key `a.b` and a nested `a: {b}` in one locale, the lookup answers the later leaf |
| `Translations.KeysWithPrefix` | src/i18nTree.ts:26-30 | the keys with the prefix as a literal string prefix, nothing else, in their order |
| `Translations.HasLocale` | src/workspaceFolderTranslation.ts:35-37 | true exactly when the locale is non-empty and a top-level key |
| `Translations.FallbackFrom` | src/workspaceFolderTranslation.ts:39-44 | the first top-level key, or `"en"` for an empty object |
| `Translations.FallbackStable` | src/workspaceFolderTranslation.ts:39-44 | merging more into a non-empty object keeps its fallback locale |
| `I18nIndex.LocaleExists` | src/i18nTree.ts:32-37 | true exactly when the locale is non-empty and the folder holds an object with that key |
| `I18nIndex.FolderFallback` | src/i18nTree.ts:39-45 | the folder's first locale, which exists, or `"en"` when the folder is absent or empty |
| `I18nIndex.MergeFolderAdds` | src/i18nTree.ts:14-24 | every text of the part is present under the folder after the merge |
| `I18nIndex.MergeFolderKeeps` | src/i18nTree.ts:14-24 | a text of the tree survives unless the part puts something at its path; other folders always survive |
| `I18nIndex.MergeFolderNames` | src/i18nTree.ts:74-76 | folder names stay in first-merge order; merging a known folder again neither duplicates nor moves it |
| `I18nIndex.MergeFolderKeepsFallback` | src/i18nTree.ts:39-45 | merging into a folder that has locales keeps its fallback locale |
| `I18nIndex.MergeFolderPlain` | src/i18nTree.ts:14-24 | merging keeps the tree well formed and free of flat keys |
| `I18nIndex.LookupKeepsAfterMerge` | src/test/i18nTree.test.ts:34-49 | after a merge, `lookupKey` still finds an earlier text whose path the part leaves alone |
| `I18nIndex.LookupAddsAfterMerge` | src/test/i18nTree.test.ts:34-49 | after a merge, `lookupKey` finds every text of the part under `folder.` and its dotted path |
| `I18nIndex.I18nTree.constructor` | src/i18nTree.ts:5-7 | an empty tree and an empty lookup map |
| `I18nIndex.I18nTree.Init` | src/i18nTree.ts:9-12 | both the tree and the lookup map become empty |
| `I18nIndex.I18nTree.MergeIntoI18nTree` | src/i18nTree.ts:14-24 | the tree is the merge of the part under the folder; the lookup map is the flattening of the whole new tree |
| `I18nIndex.I18nTree.GetKeysStartingWith` | src/i18nTree.ts:26-30 | exactly the lookup-map keys with the literal prefix, in map order |
| `I18nIndex.I18nTree.TranslationsForLocaleExist` | src/i18nTree.ts:32-37 | true exactly when the locale is non-empty and the folder has it as a key |
| `I18nIndex.I18nTree.GetFallbackLocale` | src/i18nTree.ts:39-45 | the folder's first locale, or `"en"` |
| `I18nIndex.I18nTree.GetTranslation` | src/i18nTree.ts:51-72 | `null` for an empty key; otherwise the lookup pipeline on `[folder, locale, …segments]`; on a tree without flat keys, the tree's own answer |
| `I18nIndex.I18nTree.GetWorkspaceFolderNames` | src/i18nTree.ts:74-76 | exactly the folders in the tree, each once |
| `I18nIndex.I18nTree.LookupKey` | src/i18nTree.ts:78-80 | the lookup-map text under the full key, present exactly when the key is in the map |
| `FolderTranslations.MergePart` | src/workspaceFolderTranslation.ts:21-25 | an object part is deep-merged; a string part changes nothing |
| `FolderTranslations.MergePartTexts` | src/workspaceFolderTranslation.ts:19-27 | a text is present after a merge exactly when the part holds it, or it was present and the part leaves its path alone |
| `FolderTranslations.MergePartLocales` | src/workspaceFolderTranslation.ts:19-27 | existing locales keep their order, and the locales after a merge are those of either side |
| `FolderTranslations.WorkspaceFolderTranslation.constructor` | src/workspaceFolderTranslation.ts:15-17 | stores the folder, with an empty translation and lookup map |
| `FolderTranslations.WorkspaceFolderTranslation.MergeIntoI18nTree` | src/workspaceFolderTranslation.ts:19-27 | the translation is the merge of the part, whatever the source file; the lookup map is its flattening |
| `FolderTranslations.WorkspaceFolderTranslation.GetKeysStartingWith` | src/workspaceFolderTranslation.ts:29-33 | exactly the lookup-map keys with the literal prefix, in map order |
| `FolderTranslations.WorkspaceFolderTranslation.TranslationsForLocaleExist` | src/workspaceFolderTranslation.ts:35-37 | true exactly when the locale is non-empty and a top-level key |
| `FolderTranslations.WorkspaceFolderTranslation.GetFallbackLocale` | src/workspaceFolderTranslation.ts:39-44 | the first locale, or `"en"` when there is none |
| `FolderTranslations.WorkspaceFolderTranslation.GetTranslation` | src/workspaceFolderTranslation.ts:50-71 | `null` for an empty key; otherwise the lookup pipeline on `[locale, …segments]`; on a tree without flat keys, the tree's own answer |
| `FolderTranslations.WorkspaceFolderTranslation.LookupKey` | src/workspaceFolderTranslation.ts:73-75 | the lookup-map text under the full key, present exactly when the key is in the map |
| `Resolver.LoadFile` | src/i18nResolver.ts:84-97 | a parse failure leaves the tree unchanged; otherwise the content is merged under its folder name |
| `Resolver.Parsed` | src/i18nResolver.ts:95-97 | exactly the files that parsed |
| `Resolver.LoadAllSkipsFailures` | src/i18nResolver.ts:84-97 | loading all files is the same as loading only the ones that parsed |
| `Resolver.LoadAllWellFormed` | src/i18nResolver.ts:88-94 | loading well-formed files keeps the tree well formed |
| `Resolver.I18nResolver.constructor` | src/i18nResolver.ts:27-30 | an empty tree and an empty lookup map |
| `Resolver.I18nResolver.Init` | src/i18nResolver.ts:27-30 | both the tree and the lookup map become empty |
| `Resolver.I18nResolver.LoadYamlIntoTree` | src/i18nResolver.ts:81-99 | the tree becomes the result of loading the file; the lookup map is untouched |
| `Resolver.I18nResolver.GenerateLookupMap` | src/i18nResolver.ts:182-184 | the lookup map becomes the flattening of the tree |
| `Resolver.I18nResolver.Load` | src/i18nResolver.ts:18-25 | reset, load every file in order, then flatten: the tree is the load of all files and the map its flattening |
| `Resolver.I18nResolver.GetTranslationForKey` | src/i18nResolver.ts:118-147 | `null` for an empty key; otherwise the lookup pipeline on `[folder, locale, …segments]`; with a current map and no flat keys, the tree's own answer |
| `DefinitionProvider.FindItem` | src/i18nDefinitionProvider.ts:78-80 | `find`: the first pair with the key, or none when no pair has it |
| `DefinitionProvider.QueryPath` | src/i18nDefinitionProvider.ts:65-73 | the locale first, then non-empty, dot-free segments |
| `DefinitionProvider.FindKeyValueRangeInYamlDocument` | src/i18nDefinitionProvider.ts:62-105 | the loop answers what the one-step-per-segment walk answers; a document without items gives `null` |
| `DefinitionProvider.FlatKeyFirst` | src/i18nDefinitionProvider.ts:77-85 | a pair keyed by the whole remaining suffix beats a pair keyed by the segment |
| `DefinitionProvider.MissingKey` | src/i18nDefinitionProvider.ts:79-84 | when neither the suffix nor the segment is a key, the result is `null` |
| `DefinitionProvider.ScalarStopsEarly` | src/i18nDefinitionProvider.ts:94-96 | a scalar ends the walk with its range even when segments remain |
| `DefinitionProvider.MappingAtEnd` | src/i18nDefinitionProvider.ts:97-104 | landing on a mapping at the last segment gives `null` |
| `DefinitionProvider.NestedResolves` | src/test/yamlDocument.test.ts:57-68 | nested levels followed by one flat key for the rest of the path resolve to the value's range, at every nesting depth |
| `DefinitionProvider.QueryPathOfDotted` | src/i18nDefinitionProvider.ts:65-73 | a key of dotted plain segments gives the locale, then those segments |
| `DefinitionProvider.FlatKeyUnderLocale` | src/test/yamlDocument.test.ts:57-62 | `en: {hello.world: "…"}` and the key `hello.world` give the value's range |
| `DefinitionProvider.AllFlatKeys` | src/test/yamlDocument.test.ts:64-68 | `en.hello.world: "…"` and the key `hello.world` give the value's range |
| `DefinitionProvider.MidPathFlatKeyMissed` | src/i18nDefinitionProvider.ts:75-85 | a flat key covering only part of the rest of the path is not found: the step after it is taken from the next single segment |
| `DefinitionProvider.OtherLocaleMissing` | src/test/yamlDocument.test.ts:84-88 | a document with only `en` gives `null` for locale `de` |
| `KeyDetection.DropUnderscores` | src/keyDetector.ts:59-64 | same length, each segment without one leading underscore |
| `KeyDetection.GetRelativeKeyPart` | src/keyDetector.ts:51-69 | `""` without `views` in the file name; a result never holds a path separator |
| `KeyDetection.MakeAbsoluteKey` | src/keyDetector.ts:40-49 | a non-relative key, or one with an empty relative part, is unchanged; a relative key with a non-empty relative part gets that part prepended; the key is always a suffix of the result |
| `KeyDetection.AbsoluteKeyIdempotent` | src/keyDetector.ts:40-49 | a completed key is no longer relative, so completing it again changes nothing |
| `KeyDetection.DropUnderscoresNone` | src/keyDetector.ts:59-64 | segments without a leading underscore are all kept |
| `KeyDetection.RelativeKeyOfViewPath` | src/keyDetector.ts:54-65 | for `…views/dir/…/name.ext`, the relative part is the directories and the name, without leading underscores, joined by periods |
| `KeyDetection.AbsoluteKeyOfViewPath` | src/test/keyDetector.test.ts:15-21 | a relative key in `…views/dir/…/name.ext` becomes `dir.….name` followed by the key |
| `RailsConfig.LocaleFromLine` | src/railsConfigFileParser.ts:32-35 | no second field exactly when the trimmed line has no `=`; a locale holds no colon, space, quote or `=` and has no outer white space |
| `RailsConfig.DetectConfigurationInDocument` | src/railsConfigFileParser.ts:26-36 | `null` exactly without a match, a throw exactly when the line has no `=`, otherwise the extracted locale |
| `RailsConfig.DetectConfigurationInUri` | src/railsConfigFileParser.ts:16-24 | resolves exactly when a non-empty locale was extracted, and then with that locale |
| `RailsConfig.RemoveCharsKeeps` | src/railsConfigFileParser.ts:34 | deleting characters never introduces any other character |
| `RailsConfig.LocaleOfAssignment` | src/test/railsConfigFileParser.test.ts:11-21 | a line `setting = :locale` or `setting = "locale"` gives the bare locale (`config.i18n.default_locale = :en` gives `en`) |
| `I18nDefaultLocales.TranslationsForLocaleExistInTree` | src/i18nDefaultLocaleDetector.ts:58-60 | true exactly when the locale is non-empty and a top-level key of the tree |
| `I18nDefaultLocales.FallbackLocaleFromTree` | src/i18nDefaultLocaleDetector.ts:62-64 | the first top-level key; `undefined` exactly for an empty tree |
| `I18nDefaultLocales.LocaleWithFallback` | src/i18nDefaultLocaleDetector.ts:26-38 | no tree: the detected value; a detected locale in the tree is kept; otherwise the first tree key |
| `I18nDefaultLocales.ChosenLocaleInTree` | src/i18nDefaultLocaleDetector.ts:27-36 | with a non-empty tree the chosen locale is always a top-level key |
| `I18nDefaultLocales.LocaleWithFallbackIdempotent` | src/i18nDefaultLocaleDetector.ts:27-36 | choosing again from the chosen locale changes nothing |
| `I18nDefaultLocales.FirstFound` | src/i18nDefaultLocaleDetector.ts:16 | the index of the first file with a locale, every earlier file having none |
| `I18nDefaultLocales.DetectDefaultLocale` | src/i18nDefaultLocaleDetector.ts:11-19 | rejects exactly when some file throws; otherwise the first locale found, in file order, or `undefined` when no file matches |
| `I18nDefaultLocales.DetectDefaultLocaleWithFallback` | src/i18nDefaultLocaleDetector.ts:25-39 | rejects exactly when detection rejects; otherwise the detected locale after the fallback rule |
| `I18nDefaultLocales.ConfiguredLocaleKept` | src/i18nDefaultLocaleDetector.ts:25-39 | a configured locale that has translations is the answer, whatever the later files hold |
| `I18nDefaultLocales.ResolverDefaultLocaleAsWritten` | src/i18nResolver.ts:101-108 | the resolver passes its folder-keyed tree, so a resolved locale is a folder name |
| `I18nDefaultLocales.ResolverPicksFolderName` | src/i18nResolver.ts:103 | folder `blog` with English translations and `en` configured gives the default locale `blog` |
| `I18nDefaultLocales.ResolverDefaultLocale` | src/i18nResolver.ts:101-108 | with the folder's own translations passed, a resolved locale is one of that folder's locales |
| `I18nDefaultLocales.ResolverKeepsConfiguredLocale` | src/i18nResolver.ts:103 | for the same tree, the corrected call keeps the configured `en` |
| `DefaultLocales.FallbackLocaleIfNotAvailable` | src/defaultLocaleDetector.ts:39-52 | no tree: the detected value; a detected locale with translations in the folder is kept; otherwise the folder's fallback locale |
| `DefaultLocales.ChosenLocaleAvailable` | src/defaultLocaleDetector.ts:39-52 | when the folder's first locale is a real key, the chosen locale always has translations |
| `DefaultLocales.FallbackLocaleIdempotent` | src/defaultLocaleDetector.ts:39-52 | choosing again from the chosen locale changes nothing |
| `DefaultLocales.WithDetectedKeys` | src/defaultLocaleDetector.ts:20-26 | the map gains exactly the paths of the detected folders |
| `DefaultLocales.WithDetectedOthers` | src/defaultLocaleDetector.ts:20-26 | an entry for a path no folder has is left as it was |
| `DefaultLocales.WithDetectedLast` | src/defaultLocaleDetector.ts:20-26 | a folder's path holds the locale chosen for the last folder with that path |
| `DefaultLocales.DefaultLocaleDetector.constructor` | src/defaultLocaleDetector.ts:12 | the map starts empty |
| `DefaultLocales.DefaultLocaleDetector.DetectDefaultLocaleWithFallback` | src/defaultLocaleDetector.ts:18-29 | each folder's chosen locale is written under its path in turn, and the map is returned |

## Left out

- VS Code plumbing is not modelled: `findFiles`, file watchers, `openTextDocument`, `positionAt`, `Location`, `activeTextEditor` and `getWorkspaceFolder`. The folder name, locale, parsed value, AST and matched line are parameters.
- YAML parsing (`js-yaml` `load`, `yaml` `parseDocument`, src/yamlDocument.ts) is a foreign library. Its output is an input here, so the exact offsets the YAML tests expect are not modelled.
- The `merge` and `flat` libraries are modelled only for string leaves and objects:
  - a merge where both sides are objects recurses; otherwise the later value wins;
  - `flat`'s array indexing and its empty-object leaves are not modelled.
- `merge.recursive`'s cloning and aliasing are not modelled. With `false` as the first argument it updates the base object in place; the model builds a new value.
- JavaScript quirks are left out:
  - integer-like keys that `Object.keys` lists first (keys are assumed non-numeric);
  - indexing a string during the tree walk (it is "not found" here);
  - `typeof null === "object"` (values are only strings or objects).
  - property reads that reach the prototype chain: walking to `hello.constructor` in an object gives a function in the source, but `Undefined` in the model, which knows only the object's own keys.
- The regular-expression searches (src/keyDetector.ts:22 and 32, src/i18nDefaultLocaleDetector.ts:48, src/railsConfigFileParser.ts:27) are not modelled. The matched line is the input.
  - The two config parsers use different regular expressions but the same extraction, so both use `RailsConfig.LocaleFromLine`.
  - The fixture `config/application.rb` is not part of this model; the generic `RailsConfig.LocaleOfAssignment` covers its line.
- Promise orchestration is not modelled: `raceSuccess`, `detectDefaultLocaleForWorkspaceFolder`, `detectDefaultLocales`, src/promiseExtras.ts and the `Promise.all` chains. `DetectDefaultLocale` takes each file's outcome as an input.
- src/railsCommands.ts spawns an external `rails` process and is not modelled. So is the editor glue: hover, completion, commands, extension activation and logging.
- `Resolver.I18nResolver.GetLookupMap` is an accessor (src/i18nResolver.ts:186-188). Its contract says only that it returns the stored map; what that map holds is stated by `Load` and `GenerateLookupMap`, which make it the flattening of the tree.
- `KeyDetection.DropUnderscore` is a helper whose contract is its own case split; the rule is stated through `DropUnderscores`, `DropUnderscoresNone` and `RelativeKeyOfViewPath`.
- `getDefaultLocaleForUri` is not modelled. `DefaultLocaleDetector` defines it over the editor's workspace folder (src/defaultLocaleDetector.ts:35-37). The older resolver calls it on an `I18nDefaultLocaleDetector` (src/i18nResolver.ts:16, 111, 124), which defines no such method, so `getTranslationForKey` without a locale would throw a `TypeError`. The model's `GetTranslationForKey` always takes a locale; given the locale `""` it drops the empty locale from the key parts, a path the source never reaches.
- `getFullKeyFromOffset`, `getTranslationPart`, `YAMLDocument.parse` and `I18nKeyDetector` have no implementation in the sources and are not modelled. Nor is the per-file replacement of translation parts, which exists only as a TODO.
- `DefaultLocales.FallbackLocaleIfNotAvailable` takes the folder name. The source passes a `WorkspaceFolder` object where `I18nTree` expects a folder name (src/defaultLocaleDetector.ts:41-47), and it calls `getWorkspaceFolders`, which `I18nTree` does not define.
- The concrete examples of the tests are mostly stated as generic lemmas. Examples:
  - `LookupKeepsAfterMerge` and `LookupAddsAfterMerge` for src/test/i18nTree.test.ts:34-49;
  - `AbsoluteKeyOfViewPath` for `.world` in `xy/test/app/views/hello/show.html.haml`.
- `KeyDetection.GetRelativeKeyPart`: its contract states the missing-`views` case and the absence of path separators. The full result for a template path is stated by `RelativeKeyOfViewPath` under that lemma's conditions, not for every file name.
- `Resolver.I18nResolver.GetTranslationForKey`, `I18nIndex.I18nTree.GetTranslation` and `FolderTranslations.WorkspaceFolderTranslation.GetTranslation`: their agreement with the tree walk is stated only for trees without flat keys. With flat keys the lookup map can collide (see `Translations.LaterLeafWinsCollision`).

## Findings

| source | as written | input that shows it | evidently intended | confidence | as-written member | corrected member |
|---|---|---|---|---|---|---|
| src/i18nResolver.ts:103 | `loadDefaultLocale` passes the whole tree, whose top-level keys are workspace-folder names, to a detector that checks locales against the top-level keys | tree `{blog: {en: {hello: "Hello"}}}` with `en` configured gives the default locale `blog` | the locales of one workspace folder are checked, so `en` is kept | medium; not executed | `I18nDefaultLocales.ResolverDefaultLocaleAsWritten`, `I18nDefaultLocales.ResolverPicksFolderName` | `I18nDefaultLocales.ResolverDefaultLocale`, `I18nDefaultLocales.ResolverKeepsConfiguredLocale` |
