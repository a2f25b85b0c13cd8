/** The matching rule of `Locale.get_closest`, as a function of the supported
    set and the default locale: which code the resolver hands to `Locale.get`. */
module Resolution {
  import opened Options
  import opened Text

  /** One argument of `get_closest`: a falsy non-string (`None`, `False`) or
      a string. */
  datatype Candidate = NoCode | Code(text: string)

  /** Python truthiness of a candidate: `None`, `False` and `""` are falsy. */
  predicate IsFalsy(c: Candidate)
  {
    c.NoCode? || c.text == ""
  }

  /** The pieces of a code once dashes are turned into underscores. */
  function Parts(text: string): (parts: seq<string>)
    ensures |parts| >= 1
    ensures forall p :: p in parts ==> '_' !in p && '-' !in p
  {
    var parts := Split(ReplaceChar(text, '-', '_'), '_');
    assert forall p :: p in parts ==> '-' !in p by {
      forall p | p in parts ensures '-' !in p {
        JoinSplit(ReplaceChar(text, '-', '_'), '_');
        PieceOfJoin(parts, p, '-', '_');
      }
    }
    parts
  }

  /** A character that is in a piece is in the joined string. */
  lemma {:induction false} PieceOfJoin(parts: seq<string>, p: string, c: char, sep: char)
    requires p in parts
    requires c !in Join(parts, sep)
    ensures c !in p
  {
    if |parts| > 1 && p != parts[0] {
      assert p in parts[1..];
      PieceOfJoin(parts[1..], p, c, sep);
    }
  }

  /** The code tried in the exact tier (locale.py:142-147): `lower_UPPER` for
      two pieces, the dash-replaced text otherwise. */
  function ExactCode(text: string): string
  {
    var parts := Parts(text);
    if |parts| == 2 then Lower(parts[0]) + "_" + Upper(parts[1]) else ReplaceChar(text, '-', '_')
  }

  /** The code tried in the language tier: the lower-cased first piece. */
  function LanguageCode(text: string): string
  {
    Lower(Parts(text)[0])
  }

  /** What one candidate contributes: the supported code it resolves to, or
      `None` when the resolver moves on to the next candidate. */
  function Match(c: Candidate, supported: set<string>): (r: Option<string>)
    ensures r.Some? ==> r.value in supported
    ensures IsFalsy(c) ==> r == None
    ensures !IsFalsy(c) && |Parts(c.text)| > 2 ==> r == None
  {
    if IsFalsy(c) then None
    else if |Parts(c.text)| > 2 then None
    else if ExactCode(c.text) in supported then Some(ExactCode(c.text))
    else if LanguageCode(c.text) in supported then Some(LanguageCode(c.text))
    else None
  }

  /** The code `get_closest` passes to `Locale.get`: the match of the first
      candidate that has one, otherwise the default locale. */
  function Resolve(supported: set<string>, default: string, candidates: seq<Candidate>): (code: string)
    ensures code in supported || code == default
  {
    if candidates == [] then default
    else match Match(candidates[0], supported)
      case Some(code) => code
      case None => Resolve(supported, default, candidates[1..])
  }

  /** While the default is supported, the resolved code is always supported,
      so the check at locale.py:163 never fails for a resolved code. */
  lemma ResolveSupported(supported: set<string>, default: string, candidates: seq<Candidate>)
    requires default in supported
    ensures Resolve(supported, default, candidates) in supported
  {
  }

  /** The first candidate that matches decides the result. */
  lemma {:induction false} ResolveFirstMatch(supported: set<string>, default: string, candidates: seq<Candidate>, i: nat)
    requires i < |candidates|
    requires Match(candidates[i], supported).Some?
    requires forall j :: 0 <= j < i ==> Match(candidates[j], supported) == None
    ensures Resolve(supported, default, candidates) == Match(candidates[i], supported).value
  {
    if i > 0 {
      ResolveFirstMatch(supported, default, candidates[1..], i - 1);
    }
  }

  /** When no candidate matches in either tier, the default locale is chosen. */
  lemma {:induction false} ResolveFallsBackToDefault(supported: set<string>, default: string, candidates: seq<Candidate>)
    requires forall j :: 0 <= j < |candidates| ==> Match(candidates[j], supported) == None
    ensures Resolve(supported, default, candidates) == default
  {
    if candidates != [] {
      ResolveFallsBackToDefault(supported, default, candidates[1..]);
    }
  }

  /** Conversely, a result other than the default comes from a candidate
      that matched, and no earlier candidate did. */
  lemma {:induction false} ResolveWitness(supported: set<string>, default: string, candidates: seq<Candidate>)
    requires Resolve(supported, default, candidates) != default
    ensures exists i :: 0 <= i < |candidates| && Match(candidates[i], supported) == Some(Resolve(supported, default, candidates))
                     && forall j :: 0 <= j < i ==> Match(candidates[j], supported) == None
  {
    var r := Resolve(supported, default, candidates);
    if Match(candidates[0], supported).None? {
      ResolveWitness(supported, default, candidates[1..]);
      var i :| 0 <= i < |candidates[1..]| && Match(candidates[1..][i], supported) == Some(r)
              && forall j :: 0 <= j < i ==> Match(candidates[1..][j], supported) == None;
      assert Match(candidates[i + 1], supported) == Some(r);
      forall j | 0 <= j < i + 1 ensures Match(candidates[j], supported) == None {
        if j > 0 { assert candidates[j] == candidates[1..][j - 1]; }
      }
    } else {
      assert Match(candidates[0], supported) == Some(r);
    }
  }

  /** A candidate that contributes nothing (falsy, more than two pieces, or
      matching neither tier) can be removed without changing the result. */
  lemma {:induction false} ResolveSkipsUnmatched(supported: set<string>, default: string,
                                                 before: seq<Candidate>, c: Candidate, after: seq<Candidate>)
    requires Match(c, supported) == None
    ensures Resolve(supported, default, before + [c] + after) == Resolve(supported, default, before + after)
  {
    if before == [] {
      assert (before + [c] + after)[1..] == after;
      assert before + after == after;
    } else {
      ResolveSkipsUnmatched(supported, default, before[1..], c, after);
      assert (before + [c] + after)[1..] == before[1..] + [c] + after;
      assert (before + after)[1..] == before[1..] + after;
    }
  }

  /** Falsy candidates never affect the result (locale.py:140-141). */
  lemma ResolveSkipsFalsy(supported: set<string>, default: string,
                          before: seq<Candidate>, c: Candidate, after: seq<Candidate>)
    requires IsFalsy(c)
    ensures Resolve(supported, default, before + [c] + after) == Resolve(supported, default, before + after)
  {
    ResolveSkipsUnmatched(supported, default, before, c, after);
  }

  /** A candidate with more than two pieces is skipped (locale.py:144-145). */
  lemma ResolveSkipsMalformed(supported: set<string>, default: string,
                              before: seq<Candidate>, c: Candidate, after: seq<Candidate>)
    requires c.Code? && Occurrences(ReplaceChar(c.text, '-', '_'), '_') >= 2
    ensures Resolve(supported, default, before + [c] + after) == Resolve(supported, default, before + after)
  {
    SplitLength(ReplaceChar(c.text, '-', '_'), '_');
    ResolveSkipsUnmatched(supported, default, before, c, after);
  }

  /** A piece free of separators. */
  predicate IsPiece(s: string)
  {
    '-' !in s && '_' !in s
  }

  /** A two-piece code, with either separator and any case, is tried as
      `lower(lang) + "_" + upper(region)` and then as `lower(lang)`. */
  lemma TwoPartMatch(lang: string, region: string, sep: char, supported: set<string>)
    requires IsPiece(lang) && IsPiece(region)
    requires sep == '-' || sep == '_'
    ensures Parts(lang + [sep] + region) == [lang, region]
    ensures Match(Code(lang + [sep] + region), supported)
         == if Lower(lang) + "_" + Upper(region) in supported then Some(Lower(lang) + "_" + Upper(region))
            else if Lower(lang) in supported then Some(Lower(lang))
            else None
  {
    var text := lang + [sep] + region;
    ReplaceCharAppend(lang + [sep], region, '-', '_');
    ReplaceCharAppend(lang, [sep], '-', '_');
    ReplaceCharAbsent(lang, '-', '_');
    ReplaceCharAbsent(region, '-', '_');
    assert ReplaceChar([sep], '-', '_') == ['_'];
    assert ReplaceChar(text, '-', '_') == lang + ['_'] + region;
    SplitAfter(lang, region, '_');
    SplitWithoutSeparator(region, '_');
    assert Parts(text) == [lang, region];
    assert !IsFalsy(Code(text));
    assert ExactCode(text) == Lower(lang) + "_" + Upper(region);
    assert LanguageCode(text) == Lower(lang);
  }

  /** Hence two-piece codes that differ only in separator and ASCII case
      resolve alike: "en-us", "en_US" and "EN-us" are one code. */
  lemma TwoPartCaseInsensitive(lang1: string, region1: string, sep1: char,
                               lang2: string, region2: string, sep2: char, supported: set<string>)
    requires IsPiece(lang1) && IsPiece(region1) && IsPiece(lang2) && IsPiece(region2)
    requires sep1 in "-_" && sep2 in "-_"
    requires Lower(lang1) == Lower(lang2) && Lower(region1) == Lower(region2)
    ensures Match(Code(lang1 + [sep1] + region1), supported) == Match(Code(lang2 + [sep2] + region2), supported)
  {
    TwoPartMatch(lang1, region1, sep1, supported);
    TwoPartMatch(lang2, region2, sep2, supported);
    CaseInsensitive(region1, region2);
  }

  /** "en-us", "en_US" and "EN-us" resolve alike against any supported set. */
  lemma EnUsSpellings(supported: set<string>)
    ensures Match(Code("en-us"), supported) == Match(Code("en_US"), supported)
    ensures Match(Code("EN-us"), supported) == Match(Code("en_US"), supported)
  {
    assert "en-us" == "en" + ['-'] + "us";
    assert "en_US" == "en" + ['_'] + "US";
    assert "EN-us" == "EN" + ['-'] + "us";
    LowerAt2('e', 'n');
    LowerAt2('E', 'N');
    LowerAt2('u', 's');
    LowerAt2('U', 'S');
    TwoPartCaseInsensitive("en", "us", '-', "en", "US", '_', supported);
    TwoPartCaseInsensitive("EN", "us", '-', "en", "US", '_', supported);
  }

  /** A one-piece code is tried as given, and only then lower-cased. */
  lemma OnePartMatch(text: string, supported: set<string>)
    requires text != "" && IsPiece(text)
    ensures Match(Code(text), supported)
         == if text in supported then Some(text)
            else if Lower(text) in supported then Some(Lower(text))
            else None
  {
    ReplaceCharAbsent(text, '-', '_');
    SplitWithoutSeparator(text, '_');
  }

  /** "EN" is not lower-cased for the exact tier, but reaches "en" through
      the language tier. */
  lemma UpperCaseLanguageFallsBack()
    ensures Match(Code("EN"), {"en", "en_US"}) == Some("en")
    ensures Match(Code("EN"), {"EN", "en"}) == Some("EN")
  {
    OnePartMatch("EN", {"en", "en_US"});
    OnePartMatch("EN", {"EN", "en"});
    assert Lower("EN") == "en";
  }

  /** Case mapping of a two-letter piece. */
  lemma LowerAt2(a: char, b: char)
    ensures Lower([a, b]) == [LowerChar(a), LowerChar(b)]
  {
    assert [a, b][1..] == [b];
  }

  /** Case mapping of a two-letter piece. */
  lemma UpperAt2(a: char, b: char)
    ensures Upper([a, b]) == [UpperChar(a), UpperChar(b)]
  {
    assert [a, b][1..] == [b];
  }

  /** The supported set of the scenario: default "en_US", catalogs for "fr"
      and "es_ES". */
  const ScenarioSupported: set<string> := {"en_US", "fr", "es_ES"}

  /** "fr_FR" is not supported exactly and falls back to its language "fr". */
  lemma ScenarioLanguageFallback()
    ensures Resolve(ScenarioSupported, "en_US", [Code("fr_FR")]) == "fr"
  {
    assert "fr_FR" == "fr" + ['_'] + "FR";
    TwoPartMatch("fr", "FR", '_', ScenarioSupported);
    LowerAt2('f', 'r');
    UpperAt2('F', 'R');
    assert "fr" + "_" + "FR" !in ScenarioSupported;
    assert Match(Code("fr_FR"), ScenarioSupported) == Some("fr");
  }

  /** "de" matches nothing and resolves to the default "en_US". */
  lemma ScenarioDefault()
    ensures Resolve(ScenarioSupported, "en_US", [Code("de")]) == "en_US"
  {
    OnePartMatch("de", ScenarioSupported);
    LowerAt2('d', 'e');
    assert Match(Code("de"), ScenarioSupported) == None;
  }

  /** "es-es" is canonicalised to "es_ES" and matches exactly. */
  lemma ScenarioExact()
    ensures Resolve(ScenarioSupported, "en_US", [Code("es-es")]) == "es_ES"
  {
    assert "es-es" == "es" + ['-'] + "es";
    TwoPartMatch("es", "es", '-', ScenarioSupported);
    LowerAt2('e', 's');
    UpperAt2('e', 's');
    assert "es" + "_" + "ES" == "es_ES";
    assert Match(Code("es-es"), ScenarioSupported) == Some("es_ES");
  }

  /** "a_b_c" has three pieces and matches nothing. */
  lemma ScenarioThreeParts()
    ensures Match(Code("a_b_c"), ScenarioSupported) == None
  {
    assert '-' !in "a_b_c";
    ReplaceCharAbsent("a_b_c", '-', '_');
    assert "a_b_c" == "a" + ['_'] + "b_c";
    assert "b_c" == "b" + ['_'] + "c";
    SplitAfter("a", "b_c", '_');
    SplitAfter("b", "c", '_');
    assert |Parts("a_b_c")| >= 3;
  }

  /** "EN-us" is canonicalised to the default "en_US". */
  lemma ScenarioMixedCase()
    ensures Match(Code("EN-us"), ScenarioSupported) == Some("en_US")
  {
    assert "EN-us" == "EN" + ['-'] + "us";
    TwoPartMatch("EN", "us", '-', ScenarioSupported);
    LowerAt2('E', 'N');
    UpperAt2('u', 's');
    assert "en" + "_" + "US" == "en_US";
  }

  /** Falsy and malformed candidates are passed over until "ES-es" matches,
      and its match, not the default, is the result. */
  lemma ScenarioSkipsInvalid()
    ensures Resolve(ScenarioSupported, "en_US", [NoCode, Code(""), Code("a_b_c"), Code("ES-es")]) == "es_ES"
  {
    var cs := [NoCode, Code(""), Code("a_b_c"), Code("ES-es")];
    assert "ES-es" == "ES" + ['-'] + "es";
    TwoPartMatch("ES", "es", '-', ScenarioSupported);
    LowerAt2('E', 'S');
    UpperAt2('e', 's');
    assert "es" + "_" + "ES" == "es_ES";
    assert Resolve(ScenarioSupported, "en_US", cs[3..]) == "es_ES";
    ScenarioThreeParts();
    assert cs[3..] == cs[2..][1..];
    assert Resolve(ScenarioSupported, "en_US", cs[2..]) == "es_ES";
    assert cs[2..] == cs[1..][1..];
    assert Resolve(ScenarioSupported, "en_US", cs[1..]) == "es_ES";
  }
}
