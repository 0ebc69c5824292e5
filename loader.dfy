/** `LanguageLoader`: the closed list of accepted locale tags and the
    best-effort loading of a directory's language files. Listing the directory
    and reading the files happen outside the model: a directory is the
    sequence of its files' base names and contents, and the JSON and YAML
    decoders are parameters. */
module Loader {
  import opened PhpValues
  import opened Trees

  // ---------------------------------------------------------------------------
  // Locale validation.

  /** The keys of `$VALID_LOCALES`; the display names are not used by any logic. */
  const ValidLocales: set<string> := {
    "en_US", "en_GB", "de_DE", "es_ES", "es_MX", "fr_FR", "fr_CA", "it_IT",
    "ja_JP", "ko_KR", "pt_BR", "pt_PT", "ru_RU", "zh_CN", "zh_TW", "nl_NL",
    "bg_BG", "cs_CZ", "da_DK", "el_GR", "fi_FI", "hu_HU", "id_ID", "nb_NO",
    "pl_PL", "sk_SK", "sv_SE", "tr_TR", "uk_UA"
  }

  predicate IsValidLocale(locale: string)
  {
    locale in ValidLocales
  }

  predicate IsLower(c: char) { 'a' <= c <= 'z' }

  predicate IsUpper(c: char) { 'A' <= c <= 'Z' }

  /** `s` is `n` lower-case letters, a `_` or `-`, then two to four upper-case letters. */
  predicate SplitsAt(s: string, n: nat)
  {
    && n < |s|
    && (forall k :: 0 <= k < n ==> IsLower(s[k]))
    && (s[n] == '_' || s[n] == '-')
    && 2 <= |s| - n - 1 <= 4
    && (forall k :: n < k < |s| ==> IsUpper(s[k]))
  }

  /** The structural locale policy `^[a-z]{2,3}[_-][A-Z]{2,4}$`, the
      alternative to the closed list. */
  predicate MatchesLocalePattern(s: string)
  {
    SplitsAt(s, 2) || SplitsAt(s, 3)
  }

  /** The closed list is stricter than the structural policy: every accepted
      tag has the shape language `_` REGION. */
  lemma ValidLocalesMatchPattern(s: string)
    requires IsValidLocale(s)
    ensures MatchesLocalePattern(s)
  {
    assert SplitsAt(s, 2);
  }

  /** `en_US` is accepted; a wrong case, a wrong separator, a language name and
      a one-letter language are not. */
  lemma ValidLocaleExamples()
    ensures IsValidLocale("en_US")
    ensures !IsValidLocale("en-us") && !IsValidLocale("english") && !IsValidLocale("e_US")
    ensures !IsValidLocale("en-US") && !IsValidLocale("en_us")
  {
    assert !MatchesLocalePattern("en-us") by { assert !IsUpper("en-us"[3]); }
    assert !MatchesLocalePattern("english") by { assert "english"[2] != '_'; assert "english"[3] != '_'; }
    assert !MatchesLocalePattern("e_US") by { assert !IsLower("e_US"[1]); assert "e_US"[2] != '_'; }
    assert !MatchesLocalePattern("en_us") by { assert !IsUpper("en_us"[3]); }
    if IsValidLocale("en-us") { ValidLocalesMatchPattern("en-us"); }
    if IsValidLocale("english") { ValidLocalesMatchPattern("english"); }
    if IsValidLocale("e_US") { ValidLocalesMatchPattern("e_US"); }
    if IsValidLocale("en_us") { ValidLocalesMatchPattern("en_us"); }
  }

  // ---------------------------------------------------------------------------
  // File names.

  /** The position of the last `.` in `s`, if any. */
  function LastDot(s: string): (r: Option<nat>)
    ensures r.Some? ==> r.value < |s| && s[r.value] == '.' && forall k :: r.value < k < |s| ==> s[k] != '.'
    ensures r.None? ==> forall k :: 0 <= k < |s| ==> s[k] != '.'
  {
    if s == [] then None
    else if s[|s| - 1] == '.' then Some(|s| - 1)
    else LastDot(s[..|s| - 1])
  }

  /** `pathinfo($file, PATHINFO_EXTENSION)` of a base name: what follows the
      last dot, or nothing when there is no dot. */
  function Extension(name: string): string
  {
    match LastDot(name)
    case None => ""
    case Some(i) => name[i + 1..]
  }

  /** `basename($file, $suffix)` of a base name: the suffix is cut off when the
      name ends with it and is longer than it. */
  function Basename(name: string, suffix: string): string
  {
    if |suffix| < |name| && name[|name| - |suffix|..] == suffix then name[..|name| - |suffix|] else name
  }

  /** The candidate locale of a file: its name without `"." + extension`. */
  function Stem(name: string): string
  {
    Basename(name, "." + Extension(name))
  }

  /** A file named `base.ext` has extension `ext` and stem `base`. */
  lemma StemOfName(base: string, ext: string)
    requires base != ""
    requires forall k :: 0 <= k < |ext| ==> ext[k] != '.'
    ensures Extension(base + "." + ext) == ext
    ensures Stem(base + "." + ext) == base
  {
    var name := base + "." + ext;
    assert name[|base|] == '.';
    var i := LastDot(name).value;
    assert i == |base|;
    assert name[i + 1..] == ext;
    assert name[|name| - |"." + ext|..] == "." + ext;
  }

  /** A name without a dot is its own stem. */
  lemma StemWithoutDot(name: string)
    requires forall k :: 0 <= k < |name| ==> name[k] != '.'
    ensures Stem(name) == name
  {
    assert LastDot(name).None?;
    if 1 < |name| {
      assert name[|name| - 1..][0] == name[|name| - 1];
    }
  }

  // ---------------------------------------------------------------------------
  // Loading.

  /** What a decoder makes of a file's content: a decoding error (for YAML, the
      exception the configuration parser throws), a value that is not an
      array, or an array. */
  datatype Decoded = Malformed | NotArray | Array(entries: seq<Entry>)

  type Decoder = string -> Decoded

  datatype SourceFile = SourceFile(name: string, content: string)

  /** JSON files go to the JSON decoder, every other file to the YAML parser. */
  function Decode(file: SourceFile, decodeJson: Decoder, decodeYaml: Decoder): Decoded
  {
    if Extension(file.name) == "json" then decodeJson(file.content) else decodeYaml(file.content)
  }

  /** One iteration of the loop: the `Language` a file yields, or nothing when
      its stem is not a valid locale, its content does not decode to an array,
      or the array is empty. */
  function LoadFile(file: SourceFile, decodeJson: Decoder, decodeYaml: Decoder): (r: Option<Language>)
    ensures r.Some? <==>
              && IsValidLocale(Stem(file.name))
              && Decode(file, decodeJson, decodeYaml).Array?
              && Decode(file, decodeJson, decodeYaml).entries != []
    ensures r.Some? ==> r.value == Language(Stem(file.name), Decode(file, decodeJson, decodeYaml).entries)
  {
    var locale := Stem(file.name);
    if !IsValidLocale(locale) then None
    else
      match Decode(file, decodeJson, decodeYaml)
      case Array(entries) => if entries == [] then None else Some(Language(locale, entries))
      case _ => None
  }

  /** The languages loaded from `files`, in order. */
  function Loaded(files: seq<SourceFile>, decodeJson: Decoder, decodeYaml: Decoder): seq<Language>
  {
    if files == [] then []
    else
      var front := Loaded(files[..|files| - 1], decodeJson, decodeYaml);
      match LoadFile(files[|files| - 1], decodeJson, decodeYaml)
      case Some(language) => front + [language]
      case None => front
  }

  /** `loadFromDirectory` over the files the directory listing returned. */
  method LoadFromDirectory(files: seq<SourceFile>, decodeJson: Decoder, decodeYaml: Decoder)
    returns (languages: seq<Language>)
    ensures languages == Loaded(files, decodeJson, decodeYaml)
    ensures |languages| <= |files|
    ensures forall k :: 0 <= k < |languages| ==>
              IsValidLocale(languages[k].locale) && languages[k].translations != []
  {
    languages := [];
    for i := 0 to |files|
      invariant languages == Loaded(files[..i], decodeJson, decodeYaml)
      invariant |languages| <= i
      invariant forall k :: 0 <= k < |languages| ==>
                  IsValidLocale(languages[k].locale) && languages[k].translations != []
    {
      var file := files[i];
      assert files[..i + 1][..i] == files[..i];
      var locale := Stem(file.name);
      if !IsValidLocale(locale) {
        continue;
      }
      var data: Decoded;
      if Extension(file.name) == "json" {
        data := decodeJson(file.content);
        if !data.Array? {
          continue;
        }
      } else {
        data := decodeYaml(file.content);
        if !data.Array? {
          continue;
        }
      }
      if data.entries == [] {
        continue;
      }
      languages := languages + [Language(locale, data.entries)];
    }
    assert files[..|files|] == files;
  }

  // ---------------------------------------------------------------------------
  // Properties of the batch.

  /** Loading a concatenation is concatenating the loads: no file affects what
      another yields. */
  lemma {:induction false} LoadedConcat(a: seq<SourceFile>, b: seq<SourceFile>, decodeJson: Decoder, decodeYaml: Decoder)
    ensures Loaded(a + b, decodeJson, decodeYaml) == Loaded(a, decodeJson, decodeYaml) + Loaded(b, decodeJson, decodeYaml)
    decreases |b|
  {
    if b == [] {
      assert a + b == a;
    } else {
      var b' := b[..|b| - 1];
      assert (a + b)[..|a + b| - 1] == a + b';
      LoadedConcat(a, b', decodeJson, decodeYaml);
    }
  }

  lemma LoadedSingle(file: SourceFile, decodeJson: Decoder, decodeYaml: Decoder)
    ensures Loaded([file], decodeJson, decodeYaml) ==
            match LoadFile(file, decodeJson, decodeYaml)
            case Some(language) => [language]
            case None => []
  {
    assert [file][..0] == [];
  }

  /** A file that fails is dropped on its own; the files around it load as if
      it were not there. */
  lemma FailingFileDropped(before: seq<SourceFile>, file: SourceFile, after: seq<SourceFile>,
                           decodeJson: Decoder, decodeYaml: Decoder)
    requires LoadFile(file, decodeJson, decodeYaml).None?
    ensures Loaded(before + [file] + after, decodeJson, decodeYaml) ==
            Loaded(before, decodeJson, decodeYaml) + Loaded(after, decodeJson, decodeYaml)
  {
    LoadedConcat(before + [file], after, decodeJson, decodeYaml);
    LoadedConcat(before, [file], decodeJson, decodeYaml);
    LoadedSingle(file, decodeJson, decodeYaml);
  }

  /** A file that succeeds contributes its language at its own place in the order. */
  lemma SucceedingFileKept(before: seq<SourceFile>, file: SourceFile, after: seq<SourceFile>,
                           decodeJson: Decoder, decodeYaml: Decoder)
    requires LoadFile(file, decodeJson, decodeYaml).Some?
    ensures Loaded(before + [file] + after, decodeJson, decodeYaml) ==
            Loaded(before, decodeJson, decodeYaml) + [LoadFile(file, decodeJson, decodeYaml).value] +
            Loaded(after, decodeJson, decodeYaml)
  {
    LoadedConcat(before + [file], after, decodeJson, decodeYaml);
    LoadedConcat(before, [file], decodeJson, decodeYaml);
    LoadedSingle(file, decodeJson, decodeYaml);
  }

  /** Every loaded language comes from a file of the batch that yields exactly it. */
  lemma {:induction false} LoadedFromFiles(files: seq<SourceFile>, decodeJson: Decoder, decodeYaml: Decoder)
    ensures forall k :: 0 <= k < |Loaded(files, decodeJson, decodeYaml)| ==>
              exists i :: 0 <= i < |files| && LoadFile(files[i], decodeJson, decodeYaml) == Some(Loaded(files, decodeJson, decodeYaml)[k])
  {
    if files != [] {
      var front := files[..|files| - 1];
      var loadedFront := Loaded(front, decodeJson, decodeYaml);
      var loaded := Loaded(files, decodeJson, decodeYaml);
      LoadedFromFiles(front, decodeJson, decodeYaml);
      forall k | 0 <= k < |loaded|
        ensures exists i :: 0 <= i < |files| && LoadFile(files[i], decodeJson, decodeYaml) == Some(loaded[k])
      {
        if k < |loadedFront| {
          var i :| 0 <= i < |front| && LoadFile(front[i], decodeJson, decodeYaml) == Some(loadedFront[k]);
          assert files[i] == front[i];
        } else {
          assert LoadFile(files[|files| - 1], decodeJson, decodeYaml) == Some(loaded[k]);
        }
      }
    } else {
      assert Loaded(files, decodeJson, decodeYaml) == [];
    }
  }

  /** The decision for a file named `base.ext`: the stem `base` must be a valid
      locale, and the decoder the extension selects must give a non-empty array. */
  lemma LoadFileNamed(base: string, ext: string, content: string, decodeJson: Decoder, decodeYaml: Decoder)
    requires base != ""
    requires forall k :: 0 <= k < |ext| ==> ext[k] != '.'
    ensures var data := if ext == "json" then decodeJson(content) else decodeYaml(content);
            LoadFile(SourceFile(base + "." + ext, content), decodeJson, decodeYaml) ==
              if IsValidLocale(base) && data.Array? && data.entries != [] then Some(Language(base, data.entries))
              else None
  {
    StemOfName(base, ext);
  }

  /** A batch of a good file, a failing one and another good one loads the
      two good languages, in order. */
  lemma BadFileBetweenGoodOnes(first: SourceFile, bad: SourceFile, last: SourceFile,
                               decodeJson: Decoder, decodeYaml: Decoder)
    requires LoadFile(first, decodeJson, decodeYaml).Some?
    requires LoadFile(bad, decodeJson, decodeYaml).None?
    requires LoadFile(last, decodeJson, decodeYaml).Some?
    ensures Loaded([first, bad, last], decodeJson, decodeYaml) ==
            [LoadFile(first, decodeJson, decodeYaml).value, LoadFile(last, decodeJson, decodeYaml).value]
  {
    FailingFileDropped([first], bad, [last], decodeJson, decodeYaml);
    assert [first] + [bad] + [last] == [first, bad, last];
    LoadedSingle(first, decodeJson, decodeYaml);
    LoadedSingle(last, decodeJson, decodeYaml);
  }
}
