# aiohttp_babel locale store and resolver, in Dafny

This project models the core of `aiohttp_babel/locale.py`: the process-wide
catalog store that `load_gettext_translations` fills from a directory of
per-locale gettext catalogs, the default locale and the supported-locale set,
the `Locale` cache behind `Locale.get`, the locale-code matching of
`Locale.get_closest`, and the guard and placeholder branch of
`Locale.translate`.

Layout:

- `options.dfy` (`Options`): `Option`, for Python's `None`.
- `text.dfy` (`Text`): the `str` operations the resolver uses
  (`replace`, `split`, `lower`, `upper`), with split/join round trips.
- `catalogs.dfy` (`Catalogs`): gettext message keys, babel's
  `Translations.merge` as map override, and `translate`.
- `resolution.dfy` (`Resolution`): the matching rule of `get_closest` as
  pure functions `Match` (one candidate) and `Resolve` (the whole candidate
  list), with lemmas on skipping, normalisation, tier order and fallback.
- `loading.dfy` (`Loading`): the effect of `load_gettext_translations` on the
  store's message tables, as the fold `Load` over the directory listing.
- `store.dfy` (`LocaleStore`): class `Store`, whose fields are the module
  globals `_default_locale`, `_translations`, `_supported_locales`,
  `_use_gettext` and the class attribute `Locale._cache`. Its methods are
  `set_default_locale`, `load_gettext_translations`, `Locale.get` and
  `Locale.get_closest`, each proved against the functions above. A cached
  `Locale` records whether it holds the store's catalog for its code or a
  `NullTranslations`; `Store.TranslationsOf` gives what it consults.

The invariant `Store.Valid` says the supported set is exactly the loaded
codes plus the default. So the default is always supported. The constructor,
`SetDefaultLocale`, `LoadGettextTranslations` and `Get` all preserve it. As a
consequence, `GetClosest` always meets `Get`'s precondition (the `assert` at
locale.py:163), whichever candidates it is given.

Two consequences of the code are worth stating:

- A one-piece candidate is not lower-cased before the exact match: "EN" is
  tried as "EN" first and reaches "en" only through the language tier
  (`Resolution.OnePartMatch`, `Resolution.UpperCaseLanguageFallsBack`).
- A cached `Locale` shares the store's catalog object for its code, and a
  later load merges into that object in place (locale.py:80). So the cached
  `Locale` sees the new messages (`LocaleStore.Store.LoadGettextTranslations`,
  `LocaleStore.ScenarioThroughStore`). Only a `Locale` cached with
  `NullTranslations` stays stale, even once its code is loaded.

Helper definitions have no row of their own. They are specified through the
members that use them:

- `Text.LowerChar`, `Text.UpperChar`, `Text.Lower` and `Text.Upper` are
  `str.lower()` and `str.upper()` (locale.py:147, 150), used by
  `Resolution.TwoPartMatch`, `Resolution.OnePartMatch` and
  `Text.CaseInsensitive`.
- `Text.Join` and `Text.Occurrences` state `Text.JoinSplit` and
  `Text.SplitLength`.
- `Resolution.IsFalsy` is the test at locale.py:140. `Resolution.ExactCode`
  is the exact-tier code (locale.py:142-148), and `Resolution.LanguageCode`
  is the language-tier code (locale.py:150). All three are specified by
  `Resolution.Match` and the lemmas after it.
- `Catalogs.Lookup` is the `ugettext`/`ungettext` choice at locale.py:180-185,
  specified through `Catalogs.Translate`.
- `Loading.IsHidden`, `Loading.Considered`, `Loading.Contributes` and
  `Loading.LoadedNames` are the skip tests of locale.py:73-76 and the names
  they let through, specified through `Loading.LoadStep` and
  `Loading.LoadKeys`.
- `LocaleStore.Store.Valid` is the invariant that ties `_supported_locales`
  to `_translations` and `_default_locale` (locale.py:34, 62-64, 87-88). Every
  operation of `Store` states that it keeps it.
- `LocaleStore.Store.TranslationsOf` is what `self.translations` of a cached
  `Locale` consults (locale.py:166), specified through `Store.Get`,
  `Store.GetClosest` and `Store.LoadGettextTranslations`.

## Model

| member | source | states |
|---|---|---|
| `Text.ReplaceChar` | aiohttp_babel/locale.py:142 | afterwards no `from` character is left |
| `Text.Split` | aiohttp_babel/locale.py:143 | there is always at least one piece, and no piece contains the separator |
| `Text.JoinSplit` | aiohttp_babel/locale.py:143 | joining the pieces with the separator gives back the original string |
| `Text.SplitJoin` | aiohttp_babel/locale.py:143 | splitting a join of separator-free pieces gives back those pieces |
| `Text.SplitLength` | aiohttp_babel/locale.py:143-144 | the number of pieces is one more than the number of separators |
| `Text.CaseInsensitive` | aiohttp_babel/locale.py:147 | strings with the same ASCII lower-case form have the same upper-case form |
| `Catalogs.Merged` | aiohttp_babel/locale.py:80 | the merged table has the keys of both; incoming entries win; other existing entries are kept |
| `Catalogs.MergedAssociative` | aiohttp_babel/locale.py:79-82 | merging catalogs one after another depends only on their order, not on grouping |
| `Catalogs.Translate` | aiohttp_babel/locale.py:170-187 | with no placeholders the looked-up text is returned unchanged; with placeholders it is formatted; a plural message requires a count |
| `Catalogs.TranslateIgnoresCount` | aiohttp_babel/locale.py:180-187 | without a plural message the count plays no part, and the singular lookup is used |
| `Resolution.Parts` | aiohttp_babel/locale.py:142-143 | a code has at least one piece, and no piece contains `-` or `_` |
| `Resolution.Match` | aiohttp_babel/locale.py:139-151 | a candidate yields only a supported code; falsy candidates and codes with more than two pieces yield nothing |
| `Resolution.Resolve` | aiohttp_babel/locale.py:137-152 | the chosen code is supported or is the default |
| `Resolution.ResolveSupported` | aiohttp_babel/locale.py:148-152 | while the default is supported, the chosen code is always supported |
| `Resolution.ResolveFirstMatch` | aiohttp_babel/locale.py:139-151 | the first candidate that matches in either tier decides the result |
| `Resolution.ResolveFallsBackToDefault` | aiohttp_babel/locale.py:152 | when no candidate matches in either tier, the default locale is chosen |
| `Resolution.ResolveWitness` | aiohttp_babel/locale.py:139-152 | a result other than the default is the match of some candidate, and no earlier candidate matched |
| `Resolution.ResolveSkipsUnmatched` | aiohttp_babel/locale.py:139-151 | a candidate that matches nothing can be removed from anywhere in the list without changing the result |
| `Resolution.ResolveSkipsFalsy` | aiohttp_babel/locale.py:140-141 | falsy candidates (`None`, `False`, `""`) never affect the result |
| `Resolution.ResolveSkipsMalformed` | aiohttp_babel/locale.py:142-145 | a candidate with two or more separators is skipped and the next one is tried |
| `Resolution.TwoPartMatch` | aiohttp_babel/locale.py:142-151 | a two-piece code with either separator is tried as `lower(lang)_UPPER(region)`, then as `lower(lang)` |
| `Resolution.TwoPartCaseInsensitive` | aiohttp_babel/locale.py:142-147 | two-piece codes that differ only in separator and ASCII case resolve alike |
| `Resolution.EnUsSpellings` | aiohttp_babel/locale.py:142-147 | "en-us", "en_US" and "EN-us" resolve alike for every supported set |
| `Resolution.OnePartMatch` | aiohttp_babel/locale.py:148-151 | a one-piece code is tried exactly as given, and only then lower-cased |
| `Resolution.UpperCaseLanguageFallsBack` | aiohttp_babel/locale.py:148-151 | "EN" reaches "en" through the language tier, but an exactly supported "EN" wins |
| `Resolution.ScenarioLanguageFallback` | aiohttp_babel/locale.py:148-151 | with "fr" and "es_ES" loaded and default "en_US", "fr_FR" resolves to "fr" |
| `Resolution.ScenarioDefault` | aiohttp_babel/locale.py:152 | in the same store, "de" resolves to the default "en_US" |
| `Resolution.ScenarioExact` | aiohttp_babel/locale.py:142-149 | in the same store, "es-es" resolves exactly to "es_ES" |
| `Resolution.ScenarioThreeParts` | aiohttp_babel/locale.py:144-145 | "a_b_c" has three pieces and matches nothing |
| `Resolution.ScenarioMixedCase` | aiohttp_babel/locale.py:142-149 | "EN-us" is canonicalised to "en_US" and matches it exactly |
| `Resolution.ScenarioSkipsInvalid` | aiohttp_babel/locale.py:139-149 | `None`, `""` and "a_b_c" are passed over, and "ES-es" then decides the result "es_ES", which is not the default |
| `Loading.LoadStep` | aiohttp_babel/locale.py:73-86 | hidden names, plain files and failed loads change nothing; a loaded catalog is stored under its name or merged into the existing one; other codes are untouched |
| `Loading.Load` | aiohttp_babel/locale.py:72-86 | no code already in the store is removed |
| `Loading.LoadKeys` | aiohttp_babel/locale.py:72-88 | afterwards the store holds exactly the old codes plus the names of the entries that loaded |
| `Loading.LoadAppend` | aiohttp_babel/locale.py:72 | loading a listing is loading its first part and then its second |
| `Loading.LoadSkipsEntry` | aiohttp_babel/locale.py:73-76 | a hidden, plain-file or failing entry can be removed without changing the outcome, so one bad catalog does not stop the others |
| `Loading.LoadKeepsUntouched` | aiohttp_babel/locale.py:79-82 | a code that no entry loads keeps its catalog unchanged |
| `Loading.LoadMergesSameCode` | aiohttp_babel/locale.py:72-86 | two catalogs for one code anywhere in a listing, with no other catalog for that code after the first: the keys of both are kept, and the later one wins on shared keys |
| `Loading.LoadMergesAcrossLoads` | aiohttp_babel/locale.py:72-86 | the same across two loads: a catalog a later load brings for a code is merged into the one an earlier load stored, whatever other entries surround them |
| `Loading.LoadedNamesAppend` | aiohttp_babel/locale.py:72-86 | the names loaded from a concatenated listing are the names loaded from its parts |
| `Loading.LoadNeverDropsKeys` | aiohttp_babel/locale.py:79-82 | a message already in a code's catalog is still there after any load |
| `LocaleStore.Store.constructor` | aiohttp_babel/locale.py:32-35 | the initial state: default "en_US", no catalogs, supported {"en_US"}, gettext flag off, empty cache; the invariant holds |
| `LocaleStore.Store.SetDefaultLocale` | aiohttp_babel/locale.py:52-64 | the default is replaced and supported becomes loaded codes plus the new default; catalogs and cache are kept; the invariant holds again |
| `LocaleStore.Store.LoadGettextTranslations` | aiohttp_babel/locale.py:67-90 | the catalogs become `Load` of the listing; supported becomes old codes plus loaded names plus the default; the gettext flag is set; the default and the cache are kept; a cached locale holding the store's catalog consults the merged messages, one holding `NullTranslations` keeps it |
| `LocaleStore.Store.LoadEntry` | aiohttp_babel/locale.py:73-86 | one loop pass changes the catalogs exactly as `LoadStep` does: skipped, merged into the code's catalog, or stored as a new one |
| `LocaleStore.Store.Get` | aiohttp_babel/locale.py:155-168 | a cached code returns its `Locale` unchanged whatever the supported set now is; a miss needs a supported code and caches a `Locale` that consults the store's catalog for it, or `NullTranslations` (only possible for the default); no other cache entry changes |
| `LocaleStore.Store.GetClosest` | aiohttp_babel/locale.py:137-152 | returns the cached or newly cached `Locale` for the code `Resolve` picks, which is always supported; a newly cached one consults the store's catalog for that code, or `NullTranslations` when there is none |
| `LocaleStore.Store.MatchCandidate` | aiohttp_babel/locale.py:140-151 | one pass of the candidate loop yields exactly the supported code `Match` gives, or nothing |
| `LocaleStore.FirstListingLoads` | aiohttp_babel/locale.py:72-86 | a listing with catalogs for "fr" and "es_ES" loaded into an empty store stores exactly those two catalogs |
| `LocaleStore.SecondListingMerges` | aiohttp_babel/locale.py:79-80 | a second "fr" catalog is merged into the stored one, so both messages are present |
| `LocaleStore.ScenarioThroughStore` | aiohttp_babel/locale.py:137-168 | built by the constructor, `set_default_locale("en_US")` and a load of "fr" and "es_ES", the store resolves "fr_FR" to the cached "fr" locale; after a second "fr" load, that cached locale consults the merged messages |

## Left out

- `aiohttp_babel/middlewares.py` is not part of this model. It is middleware wiring, `threading.local` storage and lazy-string wrappers over foreign libraries, and its point is per-request concurrency.
- `setup.py` is not part of this model. It is packaging metadata only.
- `format_datetime`, `format_date`, `format_time` and `format_timedelta` (locale.py:189-246) are left out. They only forward to `babel.dates`, and `format_timedelta` takes a floating-point threshold.
- `_default_locale_detector`, `set_locale_detector` and `detect_locale` (locale.py:93-126) are left out. They read request cookies and headers. As written, line 99 names `locale.Locale.parse` and `UnknownLocaleError`, and neither is imported.
- The filesystem is abstracted. `os.listdir`, `os.path.isfile` and `Translations.load` (locale.py:72-78) are replaced by a given sequence of entries. Each entry carries its name, whether it is a plain file, and the load outcome (loaded messages or failure). The listing order is whatever the sequence says.
- `logging` calls (locale.py:85, 90) are left out. They have no effect on the state.
- babel's `Translations.merge` is assumed to be a map override in which the incoming entries win. babel is not part of this model. The model also assumes that a successful load always yields a catalog with messages. babel itself returns a `NullTranslations` when no catalog file is found.
- `cls.parse(code)` (locale.py:165) is assumed to succeed. A cached `Locale` records only its code and its catalog, not babel's parsed language and territory.
- `ugettext`, `ungettext` (babel's plural-form choice) and `str.format` are parameters of `Catalogs.Translate`, not definitions.
- Catalogs.Translate: states only the guard and the placeholder branch. It does not state what the lookup returns, because the lookup is a parameter.
- `Text.Lower` and `Text.Upper` map ASCII letters only. Python's Unicode case mapping of other letters is not modelled.
- Object identity of babel `Translations` objects is modelled by code. The store never replaces the object it holds for a code (locale.py:79-82), so a `Locale` that holds one is recorded as holding "the store's catalog for its code", and what it consults is read from the store.
- A candidate is a falsy non-string or a string. Other Python values passed to `get_closest` are not modelled.
- The Python `assert` statements at locale.py:163 and locale.py:181 are modelled as preconditions of `Get` and `Translate`.
- Concurrency is left out. Two requests may race to construct the same `Locale`; the model is sequential.
