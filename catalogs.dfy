/** Translation catalogs (babel `Translations` objects) and `Locale.translate`. */
module Catalogs {
  import opened Options

  /** A key of a gettext catalog: a message id, or a message id together
      with the index of one of its plural forms. */
  datatype MessageKey = Singular(id: string) | PluralForm(id: string, index: nat)

  /** The message table of one catalog. */
  type Messages = map<MessageKey, string>

  /** babel's `Translations.merge`: the incoming entries are added to the
      existing ones and win on keys present in both. */
  function Merged(existing: Messages, incoming: Messages): (r: Messages)
    ensures r.Keys == existing.Keys + incoming.Keys
    ensures forall k :: k in incoming ==> r[k] == incoming[k]
    ensures forall k :: k in existing && k !in incoming ==> r[k] == existing[k]
  {
    existing + incoming
  }

  /** Merging catalogs in sequence: a later catalog overrides the keys of all
      earlier ones, so grouping does not matter, only order. */
  lemma MergedAssociative(a: Messages, b: Messages, c: Messages)
    ensures Merged(Merged(a, b), c) == Merged(a, Merged(b, c))
  {
  }

  /** The translations a `Locale` consults: babel's `NullTranslations`
      (nothing loaded for the code) or the current table of a loaded catalog. */
  datatype Translations = NullTranslations | Loaded(messages: Messages)

  /** The catalog lookup of `translate`: `ungettext` when a plural message is
      given, `ugettext` otherwise. Both are babel's and are parameters here. */
  function Lookup(t: Translations, message: string, pluralMessage: Option<string>, count: Option<int>,
                  ugettext: (Translations, string) -> string,
                  ungettext: (Translations, string, string, int) -> string): string
    requires pluralMessage.Some? ==> count.Some?
  {
    if pluralMessage.Some? then ungettext(t, message, pluralMessage.value, count.value)
    else ugettext(t, message)
  }

  /** `Locale.translate`: a plural message must come with a count; the looked-up
      text is formatted with the named placeholders only when there are any.
      `format` stands for Python's `str.format`. */
  function Translate<V>(t: Translations, message: string, pluralMessage: Option<string>, count: Option<int>,
                        placeholders: map<string, V>,
                        ugettext: (Translations, string) -> string,
                        ungettext: (Translations, string, string, int) -> string,
                        format: (string, map<string, V>) -> string): (r: string)
    requires pluralMessage.Some? ==> count.Some?
    ensures |placeholders| == 0 ==> r == Lookup(t, message, pluralMessage, count, ugettext, ungettext)
    ensures |placeholders| != 0 ==> r == format(Lookup(t, message, pluralMessage, count, ugettext, ungettext), placeholders)
  {
    var text := Lookup(t, message, pluralMessage, count, ugettext, ungettext);
    if |placeholders| != 0 then format(text, placeholders) else text
  }

  /** Without a plural message the count plays no part in the result. */
  lemma TranslateIgnoresCount<V>(t: Translations, message: string, c1: Option<int>, c2: Option<int>,
                                 placeholders: map<string, V>,
                                 ugettext: (Translations, string) -> string,
                                 ungettext: (Translations, string, string, int) -> string,
                                 format: (string, map<string, V>) -> string)
    ensures Translate(t, message, None, c1, placeholders, ugettext, ungettext, format)
         == Translate(t, message, None, c2, placeholders, ugettext, ungettext, format)
         == (if |placeholders| == 0 then ugettext(t, message) else format(ugettext(t, message), placeholders))
  {
  }
}
