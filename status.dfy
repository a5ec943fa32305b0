/** The package status view, get_all_packages_status (app.py:138-166): every
    package name of the refreshed index, with whether a package of the same
    code pair is installed, and two default pairs that are always listed. */
module Status {
  import opened Common
  import opened Packages

  const EnglishGerman := "Englisch -> Deutsch"
  const GermanEnglish := "Deutsch -> Englisch"

  /** The code pairs of the installed packages (app.py:144-146). */
  function InstalledCodes(installed: seq<Pkg>): set<(string, string)>
  {
    set p | p in installed :: CodePair(p)
  }

  ghost predicate PairInstalled(installed: seq<Pkg>, codes: (string, string))
  {
    exists q :: q in installed && CodePair(q) == codes
  }

  /** The loop of app.py:149-155: one entry per display name of the index,
      set from the last package listed under that name. */
  function IndexStatus(index: seq<Pkg>, installed: seq<Pkg>): (status: map<string, bool>)
    ensures status.Keys == Names(index)
    ensures forall n :: n in NameToPkg(index) ==> (status[n] <==> PairInstalled(installed, CodePair(NameToPkg(index)[n])))
    ensures forall i :: 0 <= i < |index| && LastNamed(index, i) ==>
      (status[DisplayName(index[i])] <==> PairInstalled(installed, CodePair(index[i])))
  {
    var codes := InstalledCodes(installed);
    var byName := NameToPkg(index);
    map n | n in byName :: CodePair(byName[n]) in codes
  }

  /** app.py:158-161: a default pair missing from a stale index is listed
      with the install status of its code pair. */
  function WithDefault(status: map<string, bool>, name: string, codes: (string, string),
                       installed: seq<Pkg>): (r: map<string, bool>)
    ensures r.Keys == status.Keys + {name}
    ensures forall n :: n in status ==> r[n] == status[n]
    ensures name !in status ==> (r[name] <==> PairInstalled(installed, codes))
  {
    if name in status then status else status[name := codes in InstalledCodes(installed)]
  }

  /** `index` is what refreshing and reading the package index returns, or
      None when that raised; the view then falls back to both defaults shown
      as installed. */
  function AllPackagesStatus(index: Option<seq<Pkg>>, installed: seq<Pkg>): (status: map<string, bool>)
    ensures EnglishGerman in status && GermanEnglish in status
    ensures index.None? ==> status == map[EnglishGerman := true, GermanEnglish := true]
    ensures index.Some? ==> status.Keys == Names(index.value) + {EnglishGerman, GermanEnglish}
    ensures index.Some? ==> forall n :: n in NameToPkg(index.value) ==>
      (status[n] <==> PairInstalled(installed, CodePair(NameToPkg(index.value)[n])))
    ensures index.Some? ==>
      forall i :: 0 <= i < |index.value| && LastNamed(index.value, i) ==>
        (status[DisplayName(index.value[i])] <==> PairInstalled(installed, CodePair(index.value[i])))
    ensures index.Some? && EnglishGerman !in Names(index.value) ==>
      (status[EnglishGerman] <==> PairInstalled(installed, ("en", "de")))
    ensures index.Some? && GermanEnglish !in Names(index.value) ==>
      (status[GermanEnglish] <==> PairInstalled(installed, ("de", "en")))
  {
    if index.None? then map[EnglishGerman := true, GermanEnglish := true]
    else
      var listed := IndexStatus(index.value, installed);
      var withEnglishGerman := WithDefault(listed, EnglishGerman, ("en", "de"), installed);
      WithDefault(withEnglishGerman, GermanEnglish, ("de", "en"), installed)
  }
}
