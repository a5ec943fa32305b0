/** The translation resolver, translate_text (app.py:114-134): resolves the two
    selected language names to codes through the language catalog, asks the
    library for a translator of that directed code pair and hands the text to it. */
module Resolver {
  import opened Common
  import opened Packages
  import opened Catalog

  /** The errors translate_text raises to the user interface. */
  datatype TranslateError =
    | UnknownLanguage(name: string)                  // the KeyError of app.py:120-121
    | NoPackageFound(fromName: string, toName: string)  // "no_package_found", app.py:126-129

  /** The library's translator for one code pair; what it does to the text is
      not part of this model. */
  type Translator = string -> string

  /** `find` stands for the library's get_translation_from_codes. An empty
      text or an unselected language gives "" and no error; a selection of
      None is represented here by "". */
  function TranslateText(text: string, fromName: string, toName: string, installed: seq<Pkg>,
                         find: (string, string) -> Option<Translator>): (r: Result<string, TranslateError>)
    ensures text == "" || fromName == "" || toName == "" ==> r == Success("")
    ensures r.Failure? ==> text != "" && fromName != "" && toName != ""
    ensures r == Failure(UnknownLanguage(fromName)) <==>
      text != "" && fromName != "" && toName != "" && !Named(installed, fromName)
    ensures (r.Failure? && r.error.UnknownLanguage?) <==>
      text != "" && fromName != "" && toName != "" && (!Named(installed, fromName) || !Named(installed, toName))
    ensures r.Failure? && r.error.UnknownLanguage? ==>
      !Named(installed, r.error.name) && (r.error.name == fromName || r.error.name == toName)
    ensures r.Failure? && r.error.NoPackageFound? ==>
      && r.error == NoPackageFound(fromName, toName)
      && exists fromCode, toCode ::
           && (fromName, fromCode) in LanguagePairs(installed)
           && (toName, toCode) in LanguagePairs(installed)
           && find(fromCode, toCode).None?
    ensures r.Success? && text != "" && fromName != "" && toName != "" ==>
      exists fromCode, toCode ::
        && (fromName, fromCode) in LanguagePairs(installed)
        && (toName, toCode) in LanguagePairs(installed)
        && find(fromCode, toCode).Some?
        && r.value == find(fromCode, toCode).value(text)
  {
    if text == "" || fromName == "" || toName == "" then Success("")
    else
      var languages := LanguageMap(installed);
      if fromName !in languages then Failure(UnknownLanguage(fromName))
      else if toName !in languages then Failure(UnknownLanguage(toName))
      else
        var translation := find(languages[fromName], languages[toName]);
        if translation.None? then Failure(NoPackageFound(fromName, toName))
        else Success(translation.value(text))
  }
}
