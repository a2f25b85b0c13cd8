/** The module-level state of `aiohttp_babel.locale` (`_default_locale`,
    `_translations`, `_supported_locales`, `_use_gettext`) and the class-level
    `Locale._cache`, gathered into one object, with the operations that update
    it. */
module LocaleStore {
  import opened Catalogs
  import opened Loading
  import opened Resolution
  import Text
  import Options

  /** The catalog a `Locale` was built with: a fresh `NullTranslations`, or
      the store's catalog object for its code. The store never replaces the
      catalog object of a code once it holds one, it only merges into it, so a
      locale holding it always sees the store's current messages for its code. */
  datatype CatalogRef = NullCatalog | SharedCatalog

  /** A cached `Locale`: its code and the catalog attached at construction. */
  datatype Locale = Locale(code: string, translations: CatalogRef)

  class Store {
    var defaultLocale: string
    var translations: StoreContents
    var supported: set<string>
    var useGettext: bool
    var cache: map<string, Locale>

    /** The invariant the module keeps between calls: the supported set is the
        loaded codes plus the default (so it always holds the default); every
        cached `Locale` is cached under its own code, and one that holds a
        catalog is for a code the store has a catalog for. */
    ghost predicate Valid()
      reads this
    {
      && supported == translations.Keys + {defaultLocale}
      && forall c :: c in cache ==>
           && cache[c].code == c
           && (cache[c].translations.SharedCatalog? ==> c in translations)
    }

    /** The translations a `Locale` consults now: the store's current catalog
        for its code when it holds the store's catalog, `NullTranslations`
        otherwise. */
    function TranslationsOf(locale: Locale): Translations
      reads this`translations
    {
      if locale.translations.SharedCatalog? && locale.code in translations
      then Loaded(translations[locale.code])
      else NullTranslations
    }

    /** The state at import time (locale.py:32-35); the cache starts empty
        (locale.py:160-161). */
    constructor ()
      ensures Valid()
      ensures defaultLocale == "en_US" && translations == map[] && supported == {"en_US"}
      ensures !useGettext && cache == map[]
    {
      defaultLocale := "en_US";
      translations := map[];
      supported := {"en_US"};
      useGettext := false;
      cache := map[];
    }

    /** `set_default_locale`: replaces the default and recomputes the supported
        set. Cached locales are kept, even one for a code no longer supported. */
    method SetDefaultLocale(code: string)
      requires Valid()
      modifies this`defaultLocale, this`supported
      ensures Valid()
      ensures defaultLocale == code
      ensures supported == translations.Keys + {code}
      ensures translations == old(translations)
      ensures cache == old(cache) && useGettext == old(useGettext)
    {
      defaultLocale := code;
      supported := translations.Keys + {defaultLocale};
    }

    /** `load_gettext_translations` over a listing whose filesystem and babel
        outcomes are given per entry: the catalogs become the fold `Load` of
        the listing, the supported set is recomputed, and gettext is switched
        on. Cached locales are kept: one that holds the store's catalog sees the
        merged messages, one built with `NullTranslations` keeps it even if its
        code is now loaded. */
    method LoadGettextTranslations(entries: seq<DirEntry>)
      requires Valid()
      modifies this`translations, this`supported, this`useGettext
      ensures Valid()
      ensures translations == Load(old(translations), entries)
      ensures supported == old(translations.Keys) + LoadedNames(entries) + {defaultLocale}
      ensures useGettext
      ensures defaultLocale == old(defaultLocale) && cache == old(cache)
      ensures forall c :: c in cache && cache[c].translations.SharedCatalog? ==> TranslationsOf(cache[c]) == Loaded(translations[c])
      ensures forall c :: c in cache && cache[c].translations.NullCatalog? ==> TranslationsOf(cache[c]) == NullTranslations
    {
      var i := 0;
      while i < |entries|
        invariant 0 <= i <= |entries|
        invariant translations == Load(old(translations), entries[..i])
      {
        assert entries[..i + 1][..i] == entries[..i];
        LoadEntry(entries[i]);
        i := i + 1;
      }
      assert entries[..i] == entries;
      LoadKeys(old(translations), entries);
      supported := translations.Keys + {defaultLocale};
      useGettext := true;
    }

    /** One pass of the loop in `load_gettext_translations` (locale.py:73-86):
        hidden names, plain files and failed loads are passed over; a loaded
        catalog is merged into the code's existing catalog, or stored as the
        code's catalog. */
    method LoadEntry(e: DirEntry)
      modifies this`translations
      ensures translations == LoadStep(old(translations), e)
    {
      if IsHidden(e.name) {
        // skip .svn, etc.
      } else if e.isFile {
      } else if e.outcome.LoadOk? {
        if e.name in translations {
          translations := translations[e.name := Merged(translations[e.name], e.outcome.messages)];
        } else {
          translations := translations[e.name := e.outcome.messages];
        }
      }
    }

    /** `Locale.get`: a cached code returns its `Locale` unchanged, whatever the
        supported set now is; otherwise the code must be supported
        (locale.py:163) and a new `Locale` is cached that consults the store's
        catalog for the code, or `NullTranslations` when there is none. No
        other cache entry changes. */
    method Get(code: string) returns (locale: Locale)
      requires Valid()
      requires code !in cache ==> code in supported
      modifies this`cache
      ensures Valid()
      ensures old(code in cache) ==> cache == old(cache) && locale == old(cache)[code]
      ensures old(code !in cache) ==> cache == old(cache)[code := locale]
      ensures old(code !in cache) ==> TranslationsOf(locale) == if code in translations then Loaded(translations[code]) else NullTranslations
      ensures locale == cache[code] && locale.code == code
      ensures old(code !in cache) && code !in translations ==> code == defaultLocale
    {
      if code !in cache {
        var t := if code in translations then SharedCatalog else NullCatalog;
        cache := cache[code := Locale(code, t)];
      }
      locale := cache[code];
    }

    /** `Locale.get_closest` (and the module-level `get`): tries the candidates
        in order and returns the `Locale` for the code `Resolve` chooses. The
        supported set always contains that code, so the check inside `Get` is
        never violated on this path. */
    method GetClosest(candidates: seq<Candidate>) returns (locale: Locale)
      requires Valid()
      modifies this`cache
      ensures Valid()
      ensures locale.code == Resolve(supported, defaultLocale, candidates)
      ensures locale.code in supported
      ensures locale.code in cache && locale == cache[locale.code]
      ensures old(locale.code in cache) ==> cache == old(cache) && locale == old(cache)[locale.code]
      ensures old(locale.code !in cache) ==> cache == old(cache)[locale.code := locale]
      ensures old(locale.code !in cache) ==> TranslationsOf(locale) == if locale.code in translations then Loaded(translations[locale.code]) else NullTranslations
    {
      var i := 0;
      while i < |candidates|
        invariant 0 <= i <= |candidates|
        invariant cache == old(cache)
        invariant Resolve(supported, defaultLocale, candidates[i..]) == Resolve(supported, defaultLocale, candidates)
      {
        assert candidates[i..][1..] == candidates[i + 1..];
        var code := MatchCandidate(candidates[i]);
        if code.Some? {
          locale := Get(code.value);
          return;
        }
        i := i + 1;
      }
      locale := Get(defaultLocale);
    }

    /** The body of the loop in `get_closest` for one candidate
        (locale.py:140-151): the supported code it hands to `get`, if any. */
    method MatchCandidate(candidate: Candidate) returns (code: Options.Option<string>)
      ensures code == Match(candidate, supported)
    {
      code := Options.None;
      if candidate.Code? && candidate.text != "" {
        var text := Text.ReplaceChar(candidate.text, '-', '_');
        var parts := Text.Split(text, '_');
        if |parts| <= 2 {
          var exact := text;
          if |parts| == 2 {
            exact := Text.Lower(parts[0]) + "_" + Text.Upper(parts[1]);
          }
          if exact in supported {
            code := Options.Some(exact);
          } else if Text.Lower(parts[0]) in supported {
            code := Options.Some(Text.Lower(parts[0]));
          }
        }
      }
    }
  }

  /** The scenario's first listing: catalogs for "fr" and "es_ES". */
  const FirstListing: seq<DirEntry> :=
    [DirEntry("fr", false, LoadOk(map[Singular("Hello") := "Bonjour"])), DirEntry("es_ES", false, LoadOk(map[]))]

  /** The scenario's second listing: another catalog for "fr". */
  const SecondListing: seq<DirEntry> := [DirEntry("fr", false, LoadOk(map[Singular("Bye") := "Au revoir"]))]

  /** Loading the first listing into an empty store stores both catalogs. */
  lemma FirstListingLoads()
    ensures Load(map[], FirstListing) == map["fr" := map[Singular("Hello") := "Bonjour"], "es_ES" := map[]]
    ensures LoadedNames(FirstListing) == {"fr", "es_ES"}
  {
    assert FirstListing[..1] == [FirstListing[0]];
    assert [FirstListing[0]][..0] == [];
    assert Contributes(FirstListing[0]) && Contributes(FirstListing[1]);
  }

  /** Loading the second listing merges into the "fr" catalog. */
  lemma SecondListingMerges(store: StoreContents)
    requires "fr" in store && store["fr"] == map[Singular("Hello") := "Bonjour"]
    ensures Load(store, SecondListing)["fr"] == map[Singular("Hello") := "Bonjour", Singular("Bye") := "Au revoir"]
  {
    assert SecondListing[..0] == [];
  }

  /** The store of the resolution scenario, built by the operations
      themselves: default "en_US", catalogs loaded for "fr" and "es_ES".
      "fr_FR" resolves to "fr" through the language tier; a later load of
      another "fr" catalog is merged into the one the cached `Locale` holds,
      so that `Locale` then consults both messages. */
  method ScenarioThroughStore() returns (store: Store, locale: Locale)
    ensures locale.code == "fr" && locale.code in store.cache && store.cache[locale.code] == locale
    ensures store.TranslationsOf(locale) == Loaded(map[Singular("Hello") := "Bonjour", Singular("Bye") := "Au revoir"])
  {
    store := new Store();
    store.SetDefaultLocale("en_US");
    FirstListingLoads();
    store.LoadGettextTranslations(FirstListing);
    assert store.supported == ScenarioSupported;
    ScenarioLanguageFallback();
    locale := store.GetClosest([Code("fr_FR")]);
    SecondListingMerges(store.translations);
    store.LoadGettextTranslations(SecondListing);
  }
}
