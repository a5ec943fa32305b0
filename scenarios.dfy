/** Concrete cases: the catalog listing, the selector
    defaults and the resolver's error paths, for a store holding the two
    German/English pairs. */
module Scenarios {
  import opened Common
  import opened Packages
  import opened Ordering
  import opened Catalog
  import opened Resolver

  const EnglishToGerman := Pkg("Englisch", "en", "Deutsch", "de")
  const GermanToEnglish := Pkg("Deutsch", "de", "Englisch", "en")
  const FrenchToGerman := Pkg("Français", "fr", "Deutsch", "de")

  /** Installed en->de and de->en list as ["Deutsch", "Englisch"]. */
  lemma BothPairsListSorted()
    ensures InstalledLanguageNames([EnglishToGerman, GermanToEnglish]) == ["Deutsch", "Englisch"]
  {
    var installed := [EnglishToGerman, GermanToEnglish];
    assert Less("Deutsch", "Englisch");
    assert Sorted(["Deutsch", "Englisch"]);
    assert EnglishToGerman in installed && GermanToEnglish in installed;
    forall n ensures n in ["Deutsch", "Englisch"] <==> n in LanguageMap(installed) {
      assert Named(installed, n) <==> n == "Deutsch" || n == "Englisch";
    }
    SortedUnique(InstalledLanguageNames(installed), ["Deutsch", "Englisch"]);
  }

  /** With Englisch, Deutsch and Français installed, the source selector
      defaults to Englisch and the target selector to Deutsch. */
  lemma PreferredNamesWin()
    ensures SourceDefault([EnglishToGerman, FrenchToGerman]) == Some("Englisch")
    ensures TargetDefault([EnglishToGerman, FrenchToGerman]) == Some("Deutsch")
  {
    assert EnglishToGerman in [EnglishToGerman, FrenchToGerman];
    assert Named([EnglishToGerman, FrenchToGerman], "Englisch");
    assert Named([EnglishToGerman, FrenchToGerman], "Deutsch");
  }

  /** Nothing to translate, or no language chosen: "" and no error. */
  lemma EmptyInputsTranslateToNothing(find: (string, string) -> Option<Translator>)
    ensures TranslateText("", "Englisch", "Deutsch", [EnglishToGerman], find) == Success("")
    ensures TranslateText("hi", "", "Deutsch", [EnglishToGerman], find) == Success("")
  {
  }

  /** A language no installed package names is reported by name. */
  lemma UnknownNameIsReported(find: (string, string) -> Option<Translator>)
    ensures TranslateText("hi", "Klingon", "Deutsch", [EnglishToGerman, GermanToEnglish], find)
         == Failure(UnknownLanguage("Klingon"))
  {
    var installed := [EnglishToGerman, GermanToEnglish];
    forall p | p in installed ensures p.fromName != "Klingon" && p.toName != "Klingon" {
      assert "Klingon"[0] == 'K';
    }
  }

  /** Known names without a translator for their code pair are reported with
      the display names of the pair. */
  lemma MissingPairIsReported()
    ensures TranslateText("hi", "Englisch", "Deutsch", [GermanToEnglish], (f: string, t: string) => None)
         == Failure(NoPackageFound("Englisch", "Deutsch"))
  {
    assert GermanToEnglish in [GermanToEnglish];
  }
}
