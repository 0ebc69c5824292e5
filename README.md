# libLanguage translation engine in Dafny

This project models the translation resolution engine of the PocketMine-MP
library libLanguage and proves properties of the model.

- `PluginTranslator` builds a table `locale -> (dotted key -> template)`:
  - It flattens the nested tree of every loaded language.
  - It fixes an effective default locale.
  - `translate` resolves a key through the requested locale, then the default locale, then the key itself.
  - It then substitutes `%name%` placeholders argument by argument.
  - For players, it hands the result to the PlaceholderAPI plugin when that plugin is present.
  - `translateFor` picks the locale from the sender.
- `LanguageLoader` checks a candidate locale against its closed list of 29 tags.
  - `loadFromDirectory` turns a directory's files into `Language` records.
  - It skips every file whose name is not a valid locale, or whose content does not decode to a non-empty array.

Files:

- `values.dfy` (module `PhpValues`): PHP scalars and the `(string)` cast.
- `tree.dfy` (module `Trees`): a decoded file as a tree of string-keyed entries, and the `Language` record.
- `flatten.dfy` (module `Flatten`): `flattenArray`, and a reference definition of a tree's leaves and their dotted paths.
- `placeholders.dfy` (module `Placeholders`): `str_replace` and the loop over the arguments.
- `translator.dfy` (module `Translator`): the `PluginTranslator` class.
  - Its constructor and `Translate` are loops proved against the specification functions `BuildTable`, `LoadOrder`, `EffectiveDefault` and `Rendered`.
- `loader.dfy` (module `Loader`): the allow-list, file-name handling, and the `loadFromDirectory` loop.
  - The loop is proved against the function `Loaded`.

Two modelling choices follow the PHP code:

- **Locale validation.** A locale is valid when it is one of the 29 tags of `$VALID_LOCALES`.
  - An alternative structural policy, `^[a-z]{2,3}[_-][A-Z]{2,4}$`, is modelled only for comparison.
  - `Loader.ValidLocalesMatchPattern` proves that every listed tag also matches it.
- **PHP array key order.** The key order of `$translations` is kept as the field `locales`.
  - A locale seen again keeps its first position.
  - Its catalog is replaced by the later language's.

No method of `PluginTranslator` has a `modifies` clause. The table, its key order and the effective default are therefore fixed once the constructor returns. `Valid()` is the invariant the constructor establishes and `TranslateFor` relies on.

## Model

| member | source | states |
|---|---|---|
| PhpValues.Text | src/ChernegaSergiy/Language/PluginTranslator.php:85 | `(string)` of a scalar: a string is unchanged; an integer becomes its canonical decimal (a `-` exactly for negatives, no leading zero except "0" itself) that reads back as that integer; `true` becomes "1"; `false` and `null` become "" |
| PhpValues.IntTextRoundTrip | src/ChernegaSergiy/Language/PluginTranslator.php:55 | the decimal text PHP makes of any integer (sign included) parses back to the same integer |
| PhpValues.NatTextRoundTrip | src/ChernegaSergiy/Language/PluginTranslator.php:55 | the decimal numeral of a natural number parses back to it |
| Flatten.FlattenFirst | src/ChernegaSergiy/Language/PluginTranslator.php:79-87 | the `foreach` of `flattenArray` after its first `n` entries: a nested array merges its own flattening in, a scalar is stored under its key as its cast; its properties are stated by `Flatten.FlattenIsLeafMap` and `Flatten.FlattenScalarValues` |
| Flatten.FlattenArray | src/ChernegaSergiy/Language/PluginTranslator.php:78-89 | `flattenArray` is the map of the tree's leaves (dotted key, text) in file order, a later leaf overwriting an earlier one |
| Flatten.FlattenIsLeafMap | src/ChernegaSergiy/Language/PluginTranslator.php:78-89 | the flattening equals the map built from the tree's leaves in file order, a later leaf overwriting an earlier one with the same key |
| Flatten.LeafListed | src/ChernegaSergiy/Language/PluginTranslator.php:80-85 | every leaf is listed with its full dotted path and its text |
| Flatten.ListedIsLeaf | src/ChernegaSergiy/Language/PluginTranslator.php:80-85 | every listed pair comes from a leaf reached by a key path whose dotted form is the listed key |
| Flatten.FlattenPreservesPaths | src/ChernegaSergiy/Language/PluginTranslator.php:80-85 | when no two leaves share a dotted key, every leaf is in the catalog under its ancestors' keys joined with "." (no leading dot), with its text as the value |
| Flatten.FlattenKeysAreLeafPaths | src/ChernegaSergiy/Language/PluginTranslator.php:82-83 | a key is in the catalog if and only if it is the dotted path of some leaf, so nested arrays never give an entry of their own |
| Flatten.FlattenSize | src/ChernegaSergiy/Language/PluginTranslator.php:78-89 | without collisions the catalog has exactly one entry per leaf |
| Flatten.EmptyArrayAddsNothing | src/ChernegaSergiy/Language/PluginTranslator.php:82-83 | appending an entry that holds an empty array leaves the catalog unchanged |
| Flatten.FlattenScalarValues | src/ChernegaSergiy/Language/PluginTranslator.php:80-86 | after the first `n` entries of a one-level array of scalars with distinct keys, each of those keys holds its value's cast |
| Flatten.FlattenScalarKeys | src/ChernegaSergiy/Language/PluginTranslator.php:80-86 | after the first `n` entries of a one-level array of scalars, every key present is one of those entries' keys |
| Flatten.FlattenScalarStep | src/ChernegaSergiy/Language/PluginTranslator.php:85 | a top-level scalar entry is stored under its own key, with no leading dot |
| Flatten.FlattenScalars | src/ChernegaSergiy/Language/PluginTranslator.php:78-89 | a one-level array of scalars with distinct keys flattens to exactly those keys, each mapped to the cast of its value |
| Flatten.FlattenExamples | src/ChernegaSergiy/Language/PluginTranslator.php:78-89 | `{greeting: "Hi"}` gives `{"greeting": "Hi"}`; `{a: {b: "x", c: "y"}}` gives `{"a.b": "x", "a.c": "y"}` |
| Flatten.CollisionLaterWins | src/ChernegaSergiy/Language/PluginTranslator.php:83-85 | a nested leaf that reaches an existing dotted key overwrites the earlier value (`array_merge` keeps the right-hand value) |
| Placeholders.Placeholder | src/ChernegaSergiy/Language/PluginTranslator.php:55 | a placeholder is `%`, then exactly the name, then `%` |
| Placeholders.ReplaceAll | src/ChernegaSergiy/Language/PluginTranslator.php:55 | `str_replace` with one search string: left-to-right, non-overlapping replacement, never rescanning inserted text; its properties are stated by `Placeholders.ReplaceAbsentIsIdentity`, `Placeholders.ReplacementNotRescanned` and `Placeholders.ReplaceKeepsLeadingText` |
| Placeholders.Substitute | src/ChernegaSergiy/Language/PluginTranslator.php:54-56 | the template after the `$args` loop, each argument's placeholder replaced in iteration order; `Translator.PluginTranslator.Translate`'s loop is proved equal to it, and `Placeholders.UnmatchedTemplateUnchanged`, `Placeholders.NonRecursiveExample` and `Placeholders.ArgumentOrderMatters` state its properties |
| Placeholders.ReplaceAbsentIsIdentity | src/ChernegaSergiy/Language/PluginTranslator.php:55 | `str_replace` leaves a subject that does not contain the search string unchanged |
| Placeholders.ReplacementNotRescanned | src/ChernegaSergiy/Language/PluginTranslator.php:55 | an occurrence at the front is replaced and scanning resumes after it, whatever the replacement contains |
| Placeholders.ReplaceKeepsLeadingText | src/ChernegaSergiy/Language/PluginTranslator.php:55 | text before the first occurrence is copied unchanged |
| Placeholders.UnmatchedTemplateUnchanged | src/ChernegaSergiy/Language/PluginTranslator.php:54-56 | a template in which no argument's placeholder occurs, including any template with no arguments, comes back verbatim |
| Placeholders.NonRecursiveExample | src/ChernegaSergiy/Language/PluginTranslator.php:54-56 | `"%x% and %x%"` with `x => "%y%"` gives `"%y% and %y%"`: every occurrence is replaced and nothing inserted is expanded again |
| Placeholders.ArgumentOrderMatters | src/ChernegaSergiy/Language/PluginTranslator.php:54-56 | arguments are applied in iteration order: a later argument expands what an earlier one inserted, never the reverse |
| Translator.CatalogOf | src/ChernegaSergiy/Language/PluginTranslator.php:35 | a language's catalog is `flattenArray` of its translations with an empty prefix; `Flatten.FlattenArray` states what that is |
| Translator.BuildTable | src/ChernegaSergiy/Language/PluginTranslator.php:31-36 | the table has a locale as a key if and only if some input language has that locale |
| Translator.LoadOrder | src/ChernegaSergiy/Language/PluginTranslator.php:40 | the key order of the table has no repeats, holds exactly the table's locales, and starts with the first language's locale |
| Translator.EffectiveDefault | src/ChernegaSergiy/Language/PluginTranslator.php:38-42 | the default the constructor settles on; `Translator.EffectiveDefaultChoice` states its three cases |
| Translator.Lookup | src/ChernegaSergiy/Language/PluginTranslator.php:51 | the requested locale's template wins when present; any result is either the key itself or a template stored under that key in some locale |
| Translator.PostProcess | src/ChernegaSergiy/Language/PluginTranslator.php:59-66 | the PlaceholderAPI pass, applied only to a player sender and only when the plugin is present; it is stated through `Translator.PluginTranslator.Translate` |
| Translator.Rendered | src/ChernegaSergiy/Language/PluginTranslator.php:50-69 | the specification of `translate`: lookup, then substitution, then post-processing; `Translator.PluginTranslator.Translate` is proved equal to it |
| Translator.PluginTranslator.constructor | src/ChernegaSergiy/Language/PluginTranslator.php:22-43 | the loop builds exactly `BuildTable` and `LoadOrder` of the languages; the default is `EffectiveDefault`; the resolver is stored; the order and the table agree |
| Translator.PluginTranslator.Translate | src/ChernegaSergiy/Language/PluginTranslator.php:50-69 | the result is the looked-up template, substituted argument by argument, then post-processed for players only; with no arguments and no player it is exactly the lookup |
| Translator.PluginTranslator.TranslateFor | src/ChernegaSergiy/Language/PluginTranslator.php:45-48 | a player is served in the resolver's locale (with post-processing); any other or absent sender gets the default locale's lookup with substitution only, and when anything is loaded and the default catalog has the key, that template substituted |
| Translator.LaterLanguageWins | src/ChernegaSergiy/Language/PluginTranslator.php:31-36 | when a locale occurs several times, the table holds the catalog of its last language |
| Translator.EffectiveDefaultChoice | src/ChernegaSergiy/Language/PluginTranslator.php:38-42 | the configured default is kept if loaded; otherwise the first loaded locale is used; with nothing loaded the configured value stays; with anything loaded the default is a table key |
| Translator.MissingTemplateFallsBack | src/ChernegaSergiy/Language/PluginTranslator.php:51 | when the requested locale has no template for the key (not loaded, or loaded without the key), the default locale's template is used if present, otherwise the key itself |
| Translator.LeafTranslates | src/ChernegaSergiy/Language/PluginTranslator.php:31-51 | a leaf of the language that won its locale is what a lookup of its dotted path in that locale returns |
| Translator.GreetingCatalog | src/ChernegaSergiy/Language/PluginTranslator.php:78-89 | `{a: {b: "Hi %name%"}}` flattens to `{"a.b": "Hi %name%"}` |
| Translator.GreetingSubstitution | src/ChernegaSergiy/Language/PluginTranslator.php:54-56 | `"Hi %name%"` with `name => "Bob"` gives `"Hi Bob"` |
| Translator.FallbackChainExample | src/ChernegaSergiy/Language/PluginTranslator.php:51-56 | a French lookup missing from `fr_FR` falls through to `en_US` and is substituted; an unknown key comes back as itself |
| Translator.MissingDefaultExample | src/ChernegaSergiy/Language/PluginTranslator.php:38-51 | when `de_DE` is configured but only `en_US` is loaded, the default becomes `en_US`, and `de_DE` lookups fall through to it |
| Loader.IsValidLocale | src/ChernegaSergiy/Language/LanguageLoader.php:102-104 | `isValidLocale`: membership in the keys of `$VALID_LOCALES` (lines 17-47, the constant `Loader.ValidLocales`); `Loader.ValidLocaleExamples` and `Loader.ValidLocalesMatchPattern` state its properties |
| Loader.ValidLocalesMatchPattern | src/ChernegaSergiy/Language/LanguageLoader.php:17-47 | every tag of the allow-list has the shape language letters, `_`, region letters |
| Loader.ValidLocaleExamples | src/ChernegaSergiy/Language/LanguageLoader.php:102-104 | `en_US` is accepted; `en-us`, `english`, `e_US`, `en-US` and `en_us` are rejected |
| Loader.LastDot | src/ChernegaSergiy/Language/LanguageLoader.php:61 | the position found is a dot with no dot after it; when none is found, the name has no dot |
| Loader.Extension | src/ChernegaSergiy/Language/LanguageLoader.php:68 | `pathinfo($file, PATHINFO_EXTENSION)`: what follows the last dot, or "" without a dot; `Loader.StemOfName` states it |
| Loader.Basename | src/ChernegaSergiy/Language/LanguageLoader.php:61 | `basename($file, $suffix)`: the suffix is cut only when the name ends with it and is longer than it; `Loader.StemOfName` and `Loader.StemWithoutDot` state it |
| Loader.Stem | src/ChernegaSergiy/Language/LanguageLoader.php:61 | the candidate locale: the name without `"." . extension`; `Loader.StemOfName` and `Loader.StemWithoutDot` state it |
| Loader.Decode | src/ChernegaSergiy/Language/LanguageLoader.php:68-80 | the extension switch: `json` goes to the JSON decoder, anything else to the YAML parser; `Loader.LoadFileNamed` states it |
| Loader.StemOfName | src/ChernegaSergiy/Language/LanguageLoader.php:61 | a file `base.ext` has extension `ext`, and its candidate locale is `base` |
| Loader.StemWithoutDot | src/ChernegaSergiy/Language/LanguageLoader.php:61 | a name without a dot is its own candidate locale |
| Loader.LoadFile | src/ChernegaSergiy/Language/LanguageLoader.php:61-86 | a file yields a language if and only if its stem is a valid locale and the decoder its extension selects gives a non-empty array; the language is that stem with that array |
| Loader.LoadFileNamed | src/ChernegaSergiy/Language/LanguageLoader.php:61-86 | for `base.ext`: `json` selects the JSON decoder and anything else the YAML parser; the file yields `Language(base, data)` exactly when `base` is valid and `data` is a non-empty array |
| Loader.Loaded | src/ChernegaSergiy/Language/LanguageLoader.php:60-90 | the reference for a batch: the languages the files yield, in file order; `Loader.LoadFromDirectory` is proved equal to it, and `Loader.LoadedConcat`, `Loader.FailingFileDropped`, `Loader.SucceedingFileKept` and `Loader.LoadedFromFiles` state its properties |
| Loader.LoadFromDirectory | src/ChernegaSergiy/Language/LanguageLoader.php:55-94 | the loop with its early `continue`s returns exactly `Loaded` of the files; there are no more languages than files; each has a valid locale and non-empty data |
| Loader.LoadedConcat | src/ChernegaSergiy/Language/LanguageLoader.php:60-90 | loading a concatenation of files concatenates the loads, so no file affects what another yields |
| Loader.LoadedSingle | src/ChernegaSergiy/Language/LanguageLoader.php:60-90 | one file loads to its language or to nothing |
| Loader.FailingFileDropped | src/ChernegaSergiy/Language/LanguageLoader.php:67-89 | a failing file is dropped on its own, and the files around it load as if it were absent |
| Loader.SucceedingFileKept | src/ChernegaSergiy/Language/LanguageLoader.php:60-86 | a succeeding file contributes its language at its own position |
| Loader.LoadedFromFiles | src/ChernegaSergiy/Language/LanguageLoader.php:60-86 | every loaded language is exactly what some file of the batch yields |
| Loader.BadFileBetweenGoodOnes | src/ChernegaSergiy/Language/LanguageLoader.php:60-90 | good, bad, good loads the two good languages in their order |

## Left out

- **Filesystem access.** The directory listing (`glob` with `GLOB_BRACE`, including its order and its `false` result) and `file_get_contents` are not modelled.
  - A directory is the sequence of its files, each a base name and a content, in the order the listing returned them.
  - A failed read is not modelled. Under `strict_types=1`, a failed read of a `.json` file passes `false` to `json_decode`, which throws a `TypeError`. `catch (\Exception)` does not catch that `Error`, so the whole batch aborts. `Loader.FailingFileDropped` holds only for files that were read.
- **Directory part of a path.** The stem is taken from the base name, so stripping the directory part in `basename` is not modelled.
- **JSON and YAML decoding.** `json_decode` and the configuration parser's YAML reading are decoder parameters.
  - Each decoder gives a decoding error, a non-array value, or an array.
  - An exception thrown by the YAML parser is the decoding error.
- **`loadFromResourceDirectory`.** It only joins a path onto the host plugin's data folder and calls `loadFromDirectory`.
- **The locale resolver.** `DefaultLocaleResolver` is not part of this model. The resolver is a constructor parameter of function type.
- **PlaceholderAPI.** The plugin-manager lookup and the dynamic `parsePlaceholders` call are not modelled.
  - The plugin's text transformation is an optional parameter of each call, present when the plugin is registered and enabled.
- **Host types and run-time checks.**
  - `CommandSender`, `Player` and `PluginBase` are reduced to an optional sender that is a player or not.
  - The `instanceof Language` check and its exception cannot fail in a typed model.
- **Floating-point values and other casts.** The model does not cover every value `(string)` casts:
  - Language files can hold floats, which line 85 casts; the model's leaves are only strings, integers, booleans and null.
  - `$args` values are limited the same way. Line 55 also casts floats, objects with `__toString`, and arrays (which cast to "Array"), and none of these is modelled.
- **PHP array key coercion.** Keys are non-numeric strings:
  - the renumbering of integer keys by `array_merge` is not modelled;
  - the coercion of numeric-string keys to integers is not modelled.
- **Display names.** The display names in `$VALID_LOCALES` are not modelled, because no logic reads them.
- **Size of the allow-list.** That the list has 29 tags is a fact of the constant, not a proved lemma.
- **Translator.Lookup.** Its contract states the first step of the fallback and where any result comes from. The rest of the chain, for a requested locale that is missing or lacks the key, is stated by `Translator.MissingTemplateFallsBack`.
