/** `PluginTranslator`: the table locale -> (dotted key -> template) built once
    from the loaded languages, the effective default locale, and lookup with
    fallback and placeholder substitution. */
module Translator {
  import opened PhpValues
  import opened Trees
  import opened Flatten
  import opened Placeholders

  /** A command sender; the translator only asks whether it is a player. */
  datatype Sender = Player(name: string) | Other(name: string)

  predicate IsPlayer(sender: Option<Sender>)
  {
    sender.Some? && sender.value.Player?
  }

  /** The PlaceholderAPI plugin's `parsePlaceholders`, when the plugin is
      registered and enabled at the time of the call. */
  type PostProcessor = (string, Sender) -> string

  type Catalog = map<string, string>

  function CatalogOf(lang: Language): Catalog
  {
    FlattenArray(lang.translations, "")
  }

  // ---------------------------------------------------------------------------
  // Specification of the constructor.

  /** `$translations` after the constructor's loop: each language's flattened
      catalog under its locale. */
  function BuildTable(langs: seq<Language>): (t: map<string, Catalog>)
    ensures forall l :: l in t <==> exists i :: 0 <= i < |langs| && langs[i].locale == l
  {
    if langs == [] then map[]
    else
      var last := langs[|langs| - 1];
      BuildTable(langs[..|langs| - 1])[last.locale := CatalogOf(last)]
  }

  /** `array_keys($translations)`: the locales in the order they were first
      inserted (a later duplicate keeps the earlier position). */
  function LoadOrder(langs: seq<Language>): (order: seq<string>)
    ensures forall i, j :: 0 <= i < j < |order| ==> order[i] != order[j]
    ensures forall l :: l in order <==> l in BuildTable(langs)
    ensures langs != [] ==> |order| > 0 && order[0] == langs[0].locale
  {
    if langs == [] then []
    else
      var front := LoadOrder(langs[..|langs| - 1]);
      var locale := langs[|langs| - 1].locale;
      if locale in front then front else front + [locale]
  }

  /** The default locale the constructor settles on: the configured one when it
      was loaded, otherwise the first loaded locale, otherwise still the
      configured one. */
  function EffectiveDefault(langs: seq<Language>, configured: string): string
  {
    var table := BuildTable(langs);
    if configured !in table && table != map[] then LoadOrder(langs)[0] else configured
  }

  // ---------------------------------------------------------------------------
  // Specification of translate.

  /** `$translations[$locale][$key] ?? $translations[$defaultLocale][$key] ?? $key`. */
  function Lookup(table: map<string, Catalog>, defaultLocale: string, locale: string, key: string): (r: string)
    ensures locale in table && key in table[locale] ==> r == table[locale][key]
    ensures r == key || exists l :: l in table && key in table[l] && table[l][key] == r
  {
    if locale in table && key in table[locale] then table[locale][key]
    else if defaultLocale in table && key in table[defaultLocale] then table[defaultLocale][key]
    else key
  }

  /** PlaceholderAPI's pass, applied to player senders only and only when the
      plugin is present. */
  function PostProcess(s: string, sender: Option<Sender>, api: Option<PostProcessor>): string
  {
    if IsPlayer(sender) && api.Some? then api.value(s, sender.value) else s
  }

  function Rendered(table: map<string, Catalog>, defaultLocale: string, locale: string, key: string,
                    args: seq<Arg>, sender: Option<Sender>, api: Option<PostProcessor>): string
  {
    PostProcess(Substitute(Lookup(table, defaultLocale, locale, key), args), sender, api)
  }

  // ---------------------------------------------------------------------------
  // The translator object.

  /** No method changes the fields after construction: the table, its key order
      and the effective default are fixed once the constructor returns. */
  class PluginTranslator {
    var translations: map<string, Catalog>
    /** The key order of the PHP array `$translations`. */
    var locales: seq<string>
    var defaultLocale: string
    const resolver: Sender -> string

    ghost predicate Valid()
      reads this
    {
      && (forall i, j :: 0 <= i < j < |locales| ==> locales[i] != locales[j])
      && (forall l :: l in locales <==> l in translations)
      && (translations != map[] ==> defaultLocale in translations)
    }

    constructor (languages: seq<Language>, resolver: Sender -> string, defaultLocale: string)
      ensures Valid()
      ensures translations == BuildTable(languages)
      ensures locales == LoadOrder(languages)
      ensures this.defaultLocale == EffectiveDefault(languages, defaultLocale)
      ensures this.resolver == resolver
    {
      var table: map<string, Catalog> := map[];
      var order: seq<string> := [];
      var i := 0;
      while i < |languages|
        invariant i <= |languages|
        invariant table == BuildTable(languages[..i])
        invariant order == LoadOrder(languages[..i])
      {
        var language := languages[i];
        assert languages[..i + 1][..i] == languages[..i];
        if language.locale !in table {
          order := order + [language.locale];
        }
        table := table[language.locale := CatalogOf(language)];
        i := i + 1;
      }
      assert languages[..i] == languages;
      var effective := defaultLocale;
      if effective !in table && table != map[] {
        effective := order[0];
      }
      this.translations := table;
      this.locales := order;
      this.defaultLocale := effective;
      this.resolver := resolver;
    }

    /** `translate`: look the template up with fallback, substitute every
        argument in order, then let PlaceholderAPI post-process for players. */
    method Translate(locale: string, key: string, args: seq<Arg>, sender: Option<Sender>,
                     placeholderApi: Option<PostProcessor>) returns (r: string)
      ensures r == Rendered(translations, defaultLocale, locale, key, args, sender, placeholderApi)
      ensures args == [] && !IsPlayer(sender) ==> r == Lookup(translations, defaultLocale, locale, key)
    {
      var translation := Lookup(translations, defaultLocale, locale, key);
      ghost var template := translation;
      var i := 0;
      while i < |args|
        invariant i <= |args|
        invariant translation == Substitute(template, args[..i])
      {
        assert args[..i + 1][..i] == args[..i];
        translation := ReplaceAll(translation, Placeholder(args[i].name), Text(args[i].value));
        i := i + 1;
      }
      assert args[..i] == args;
      if IsPlayer(sender) && placeholderApi.Some? {
        translation := placeholderApi.value(translation, sender.value);
      }
      r := translation;
    }

    /** `translateFor`: a player gets the resolver's locale (and the
        post-processing); anyone else, or no sender, gets the default locale. */
    method TranslateFor(sender: Option<Sender>, key: string, args: seq<Arg>,
                        placeholderApi: Option<PostProcessor>) returns (r: string)
      requires Valid()
      ensures !IsPlayer(sender) && translations != map[] && key in translations[defaultLocale] ==>
                r == Substitute(translations[defaultLocale][key], args)
      ensures IsPlayer(sender) ==>
                r == Rendered(translations, defaultLocale, resolver(sender.value), key, args, sender, placeholderApi)
      ensures !IsPlayer(sender) ==>
                r == Substitute(Lookup(translations, defaultLocale, defaultLocale, key), args)
    {
      var locale := if IsPlayer(sender) then resolver(sender.value) else defaultLocale;
      r := Translate(locale, key, args, sender, placeholderApi);
    }
  }

  // ---------------------------------------------------------------------------
  // Properties of the constructor's result.

  /** When a locale occurs more than once, the last language with it wins. */
  lemma {:induction false} LaterLanguageWins(langs: seq<Language>, i: nat)
    requires i < |langs|
    requires forall j :: i < j < |langs| ==> langs[j].locale != langs[i].locale
    ensures langs[i].locale in BuildTable(langs)
    ensures BuildTable(langs)[langs[i].locale] == CatalogOf(langs[i])
  {
    if i < |langs| - 1 {
      var front := langs[..|langs| - 1];
      assert front[i] == langs[i];
      LaterLanguageWins(front, i);
    }
  }

  /** The effective default is the configured locale if loaded, else the first
      loaded locale, else the configured value; once anything is loaded it is
      a locale of the table. */
  lemma EffectiveDefaultChoice(langs: seq<Language>, configured: string)
    ensures configured in BuildTable(langs) ==> EffectiveDefault(langs, configured) == configured
    ensures configured !in BuildTable(langs) && langs != [] ==> EffectiveDefault(langs, configured) == langs[0].locale
    ensures langs == [] ==> EffectiveDefault(langs, configured) == configured
    ensures langs != [] ==> EffectiveDefault(langs, configured) in BuildTable(langs)
  {
    if langs != [] {
      assert langs[0].locale in BuildTable(langs);
    }
  }

  /** When the requested locale has no template for the key (the locale is not
      loaded, or its catalog lacks the key), a lookup falls through to the
      default locale's catalog, and past it to the key itself. */
  lemma MissingTemplateFallsBack(table: map<string, Catalog>, defaultLocale: string, locale: string, key: string)
    requires !(locale in table && key in table[locale])
    ensures defaultLocale in table && key in table[defaultLocale] ==>
              Lookup(table, defaultLocale, locale, key) == table[defaultLocale][key]
    ensures !(defaultLocale in table && key in table[defaultLocale]) ==>
              Lookup(table, defaultLocale, locale, key) == key
  {
  }

  /** End to end: a leaf of the language that won its locale is found under its
      dotted path when that locale is asked for, whatever the default. */
  lemma LeafTranslates(langs: seq<Language>, i: nat, path: seq<string>, v: Scalar, defaultLocale: string)
    requires i < |langs|
    requires forall j :: i < j < |langs| ==> langs[j].locale != langs[i].locale
    requires HasLeaf(langs[i].translations, path, v)
    requires NoCollisions(langs[i].translations)
    ensures Lookup(BuildTable(langs), defaultLocale, langs[i].locale, Dotted("", path)) == Text(v)
  {
    LaterLanguageWins(langs, i);
    FlattenPreservesPaths(langs[i].translations, path, v);
  }

  // ---------------------------------------------------------------------------
  // Worked examples.

  function Greeting(): seq<Entry>
  {
    [Entry("a", Node([Entry("b", Leaf(Str("Hi %name%")))]))]
  }

  lemma GreetingCatalog()
    ensures FlattenArray(Greeting(), "") == map["a.b" := "Hi %name%"]
  {
    var inner := [Entry("b", Leaf(Str("Hi %name%")))];
    assert JoinKey("a", "b") == "a.b";
    assert FlattenFirst(inner, "a", 1) == map["a.b" := "Hi %name%"];
    assert FlattenFirst(Greeting(), "", 1) == map[] + FlattenFirst(inner, "a", 1);
  }

  lemma GreetingSubstitution()
    ensures Substitute("Hi %name%", [Arg("name", Str("Bob"))]) == "Hi Bob"
  {
    var args := [Arg("name", Str("Bob"))];
    assert args[..0] == [];
    assert Placeholder("name") == "%name%";
    assert "Hi %name%" == "Hi " + "%name%";
    assert !Occurs("Hi ", "%name%");
  }

  /** With `en_US` holding `a.b` and `fr_FR` empty, a French lookup of `a.b`
      falls through to English, and an unknown key comes back as itself. */
  lemma FallbackChainExample()
    ensures var langs := [Language("en_US", Greeting()), Language("fr_FR", [])];
            var table := BuildTable(langs);
            var d := EffectiveDefault(langs, "en_US");
            && Rendered(table, d, "fr_FR", "a.b", [Arg("name", Str("Bob"))], None, None) == "Hi Bob"
            && Rendered(table, d, "en_US", "missing.key", [], None, None) == "missing.key"
  {
    var langs := [Language("en_US", Greeting()), Language("fr_FR", [])];
    assert langs[..1] == [Language("en_US", Greeting())];
    assert langs[..1][..0] == [];
    GreetingCatalog();
    GreetingSubstitution();
    var table := BuildTable(langs);
    assert table == map["en_US" := map["a.b" := "Hi %name%"], "fr_FR" := map[]];
  }

  /** Configured `de_DE` but only `en_US` loaded: the effective default is
      `en_US`, and `de_DE` lookups fall through to it. */
  lemma MissingDefaultExample()
    ensures var langs := [Language("en_US", Greeting())];
            var d := EffectiveDefault(langs, "de_DE");
            && d == "en_US"
            && Lookup(BuildTable(langs), d, "de_DE", "a.b") == "Hi %name%"
  {
    var langs := [Language("en_US", Greeting())];
    assert langs[..0] == [];
    GreetingCatalog();
    assert BuildTable(langs) == map["en_US" := map["a.b" := "Hi %name%"]];
    assert "en_US" in BuildTable(langs);
  }
}
