# Language-package reconciliation for an offline translator

This project models the core of a small desktop translator built on
Argos Translate. The user ticks the language packages they want. The
application then brings the installed packages in line with that choice:
it uninstalls what is no longer ticked, installs newly ticked packages
from the online index and reports progress as it goes. It also lists
the installed languages, picks the default source and target language
and translates text through the installed package for a pair.

The model is split into modules that follow the program:

- `Packages`: the package record. It also holds the normalisation of the
  two attribute shapes that library versions expose (`from_lang.name` or
  `from_name`), the display name `"<from> -> <to>"` and the
  name-to-package map of the index, where the last entry wins.
- `Ordering`: Python's lexicographic string order and sorted,
  duplicate-free lists of names.
- `Catalog`: the language-name map built from the installed packages,
  the sorted list of installed language names and the default choice of
  the two language selectors.
- `Resolver`: translating a text between two languages chosen by name.
- `Status`: the checkbox view. For each indexed package it records
  whether a package with the same code pair is installed. It also adds
  the two default pairs when the index lacks them, and falls back when
  the index cannot be fetched.
- `Store`: the external package store, as a class whose install and
  uninstall operations change it in place and may fail.
- `Reconciler`: the update operation. This covers:
  - the two planned sets (uninstall and install);
  - the order of operations, with all uninstalls before all installs;
  - the progress reports;
  - the final state after a completed run, and what is left after an
    aborted run;
  - the method that runs the plan against the store.
- `Scenarios`: concrete cases for two installed German/English pairs:
  - the sorted language list;
  - the selector defaults;
  - the resolver's error reports.

How the plan behaves:

- The plan compares display names, not language codes.
- The checkbox view, however, ticks an index entry when its code pair is
  installed.
- An installed package whose metadata spells its languages differently
  from the index is therefore ticked under the index's name. Submitting
  the checkboxes unchanged then uninstalls that package and installs the
  index's package of the same pair (`Reconciler.RenamedPairIsReinstalled`).
- Submitting unchanged checkboxes plans nothing when two conditions hold
  (`Reconciler.UnchangedCheckboxesPlanNothing`). First, the index lists
  every installed package under its own display name. Second, no other
  index name carries the code pair of an installed package.

The operation counter is incremented before each progress report and
each report comes before its store call (app.py:218-223, 228-233). The
reports are therefore 1/total, 2/total, …, total/total, and in a
completed run the last report before the final event equals 1
(`Reconciler.ReportsCountUp`, `Reconciler.UpdateLanguages`).

## Model

| member | source | states |
|---|---|---|
| Packages.ProbeName | app.py:97-102 | with a `<side>_lang` attribute the name comes from that language object, None when the object is None or lacks a name; otherwise it is the flat `<side>_name` attribute, None when missing |
| Packages.ProbeCode | app.py:105-110 | the code is read the same way from `<side>_lang` or `<side>_code` |
| Packages.Normalize | app.py:143-153 | the record's display name is the f-string label "<from> -> <to>" of the probed names, with None rendered as "None", and its code pair is the tuple of the probed codes |
| Packages.NormalizeIgnoresShape | app.py:97-110 | a package exposing `from_lang`/`to_lang` objects and one exposing flat `from_name`/`from_code` attributes with the same values give the same record; a missing attribute reads as "None" |
| Packages.NameToPkg | app.py:178-181 | the map's keys are exactly the display names of the index; each value is an index package carrying its key as display name; for duplicate names the last package in the index wins |
| Packages.Without | app.py:223 | removing a package from a duplicate-free list leaves exactly the other packages, still duplicate-free |
| Packages.DistinctWithin | app.py:203 | a duplicate-free list drawn from a set is no longer than the set |
| Packages.EnumerationLength | app.py:203 | a duplicate-free list enumerating a set has as many entries as the set has members |
| Ordering.Less | app.py:93 | `a < b` holds iff at the first position where the strings differ `a` has the smaller character, or `a` is a proper prefix of `b` (Python's `str` ordering, which `sorted` uses) |
| Ordering.LessIrreflexive | app.py:93 | no string sorts before itself |
| Ordering.LessTransitive | app.py:93 | string order is transitive |
| Ordering.LessTotal | app.py:93 | of two distinct strings one sorts before the other |
| Ordering.Insert | app.py:93 | inserting into a strictly sorted list keeps it strictly sorted and adds exactly the new element |
| Ordering.SortedSet | app.py:93 | the result is strictly sorted and holds exactly the given names |
| Ordering.SortedUnique | app.py:93 | two strictly sorted lists with the same members are equal, so `sorted` of a key set is determined by the set |
| Catalog.LanguageMap | app.py:82-89 | a name is a key iff some installed package names it on either side, and each key maps to a code paired with that name in some installed package |
| Catalog.LanguageNames | app.py:92-93 | lists exactly the names some installed package carries |
| Catalog.InstalledLanguageNames | app.py:92-93 | strictly sorted, and holds exactly the keys of the language map |
| Catalog.InstalledLanguageNamesIgnoreOrder | app.py:92-93 | the listing depends only on which packages are installed, not on their order |
| Catalog.PreferredOrFirst | app.py:255-259 | a choice exists iff the list is non-empty; it is the preferred name iff that name is listed; otherwise it is the first listed name |
| Catalog.DefaultChoice | app.py:252-271 | a default exists iff some language is installed; it is the preferred name iff that name is installed; otherwise it is the least installed name; it is always an installed name |
| Catalog.SourceDefault | app.py:252-260 | the source selector defaults to "Englisch" when installed, otherwise to the first sorted installed name, and to none when nothing is installed |
| Catalog.TargetDefault | app.py:263-271 | the target selector defaults to "Deutsch" when installed, otherwise to the first sorted installed name, and to none when nothing is installed |
| Resolver.TranslateText | app.py:114-134 | empty text or an empty language name gives "" and no error; a name no installed package carries fails naming that language; known names with no translator for a code pair of theirs fail naming both display names; otherwise the result is the translator's output for a code pair paired with those names |
| Status.IndexStatus | app.py:146-155 | keys are exactly the index's display names; each is marked installed iff the code pair of the index package under that name (the last one, for duplicates) is the code pair of some installed package |
| Status.WithDefault | app.py:158-161 | adds the default name when it is missing, marked installed iff its code pair is installed, and leaves every other entry unchanged |
| Status.AllPackagesStatus | app.py:138-166 | both default pairs always appear; when the index cannot be fetched, exactly those two appear, marked installed; otherwise keys are the index names plus the defaults, index entries are marked by their code pair and a missing default is marked by ("en","de") or ("de","en") |
| Store.PackageStore.constructor | app.py:183-184 | the store starts with the given duplicate-free list of installed packages |
| Store.PackageStore.Uninstall | app.py:223 | on success the package is gone and nothing else changes; on failure the store is unchanged; the store stays duplicate-free |
| Store.PackageStore.Install | app.py:233 | on success the store holds the package in addition to what it held; on failure it is unchanged; the store stays duplicate-free |
| Reconciler.ToUninstall | app.py:196-201 | holds only installed packages |
| Reconciler.UninstallsAreUnselected | app.py:196-201 | an installed package is planned for uninstallation iff its display name is not selected |
| Reconciler.ToInstall | app.py:178-195 | holds only index packages |
| Reconciler.InstallsAreNewIndexedNames | app.py:178-195 | every planned install is the index's entry for a selected name that no installed package carries, and every such selected, indexed name contributes its index package |
| Reconciler.Checked | app.py:246 | the names the status view marks installed, and only names it lists |
| Reconciler.ViewIsConsistent | app.py:235-271 | the refreshed view always lists both default pairs; the languages are sorted and are exactly the installed names; each selector has a value iff some language is installed, that value is one of the listed languages, and it is "Englisch" (source) or "Deutsch" (target) iff that language is listed |
| Reconciler.PlanPartition | app.py:190-201 | uninstalls come from the store and spare every desired name; installs come from the index, carry a desired name no installed package has, are not installed, and never overlap the uninstalls |
| Reconciler.NothingToDoWhenDesiredIsInstalled | app.py:190-204 | asking for exactly the installed names plans no operation |
| Reconciler.NewNameIsInstalledOnce | app.py:190-201 | a desired name the index lists and no installed package carries is installed once, as the index's package, and no package of that name is uninstalled |
| Reconciler.ClearingUninstallsEverything | app.py:190-203 | deselecting everything uninstalls all N installed packages and installs nothing: N operations |
| Reconciler.UnchangedCheckboxesPlanNothing | app.py:243-249 | when the index lists each installed package under its own name and no other index name carries an installed code pair, submitting the ticked checkboxes unchanged plans nothing |
| Reconciler.RenamedPairIsChecked | app.py:146-155 | an installed en->de package named "English -> German" ticks the index entry "Englisch -> Deutsch" by its code pair |
| Reconciler.RenamedPairIsReinstalled | app.py:190-201 | submitting that ticked box unchanged uninstalls the installed package and installs the index's package of the same pair |
| Reconciler.ApplyRemovals | app.py:215-223 | running a list of removals on the store removes exactly those packages |
| Reconciler.ApplySchedule | app.py:215-233 | removals followed by additions leave (store minus removed) plus added |
| Reconciler.ScheduleAt | app.py:215-233 | the k-th operation removes the k-th uninstalled package while k is below their count, and otherwise adds the (k minus that count)-th package to install |
| Reconciler.UninstallsPrecedeInstalls | app.py:215-233 | no removal follows an addition in the schedule |
| Reconciler.ScheduleCoversPlanOnce | app.py:203-233 | for enumerations of the planned sets, the schedule has one operation per planned package, touches no package twice and performs each planned operation exactly once |
| Reconciler.ReportsCountUp | app.py:213-231 | for a schedule no longer than the total, progress counts run 1, 2, …: strictly increasing, within 1..total, and the last equals total when the whole schedule ran |
| Reconciler.ScheduleWithinPlan | app.py:203-233 | a run attempts at most total_ops operations, and exactly total_ops when it works through both sets |
| Reconciler.ProgressEvents | app.py:171-240 | every progress event of a run has a count within 1..total, the counts strictly increase, and a completed run's last progress event, just before the final event, reports total/total |
| Reconciler.PlanRanFromRun | app.py:203-240 | a run of a non-empty plan whose total is total_ops, with the store and event outcome the run methods guarantee, also keeps every progress count within 1..total_ops, strictly increasing, and a completed run has total_ops reports ending at total_ops/total_ops |
| Reconciler.CompletedRunReachesDesired | app.py:190-233 | after a completed run, the installed names are exactly the desired names that the index or the previous store lists |
| Reconciler.ReconcileIsStable | app.py:190-204 | planning again for the same selection after a completed run plans nothing |
| Reconciler.Reconcile | app.py:177-240 | the run once the index has been read, with the outcome described for UpdateLanguages below |
| Reconciler.UpdateLanguages | app.py:169-240 | always starts with the start event. If the index cannot be fetched, the run stops there with the store unchanged. With nothing to do, the store is unchanged and a no-changes event with the refreshed view follows. Otherwise all uninstalls run before all installs, each preceded by a progress report. Every progress count lies in 1..total_ops and the counts strictly increase. A completed run has total_ops reports, the last equal to total_ops, and ends with the updated view; it leaves exactly the planned state. A failed operation aborts the batch and leaves the earlier operations applied |
| Reconciler.RunPlan | app.py:213-240 | runs the uninstall set and then the install set against the store: it attempts planned packages only, each once, every uninstall before any install; a completed run attempted all of them, leaves (store minus uninstalls) plus installs and ends with the refreshed view; an aborted run leaves every attempted operation but the failed last one applied |
| Reconciler.RunUninstalls | app.py:215-223 | removes every planned package one at a time in some order, reporting each; it stops at the first failure, with the removals so far applied |
| Reconciler.RunInstalls | app.py:226-233 | installs every planned package one at a time in some order, continuing the count from the uninstalls; it stops at the first failure, with the installs so far applied |
| Scenarios.BothPairsListSorted | app.py:92-93 | installed en->de and de->en list their languages as ["Deutsch", "Englisch"] |
| Scenarios.PreferredNamesWin | app.py:252-271 | with Englisch, Deutsch and Français installed the selectors default to Englisch and Deutsch |
| Scenarios.EmptyInputsTranslateToNothing | app.py:116-117 | empty text or an empty source name translates to "" |
| Scenarios.UnknownNameIsReported | app.py:119-121 | "Klingon" is reported as an unknown language |
| Scenarios.MissingPairIsReported | app.py:124-129 | known names with no translator report "no package found" for those names |

## Left out

- The Gradio user interface is not part of this model: layout, tabs, CSS, translated labels and the disclaimer dialog. Only the data the update callbacks return is modelled, as the `Snapshot` view.
- Settings persistence, the configuration file and `main` are outside the reconciliation core.
- installer.py (the first-run installer) is not part of this model.
- Network access is modelled as parameters. `update_package_index` and `get_available_packages` become an optional index (None when they raise). `get_translation_from_codes` becomes the `find` parameter, so any pivot translation the library does behind it is not modelled.
- Exceptions from the translator itself are not modelled. `Resolver.TranslateText` treats translation as a total function.
- Progress fractions are floats in the source. The model keeps the pair (done, total), and the progress-bar text is not modelled.
- The generator and `yield` mechanics are modelled as the list of events the run emits. Interleaving with the UI thread and concurrent runs are not modelled.
- Catalog.LanguageMap: the source builds a dict from a set of pairs. Which code wins for a name with two codes depends on set iteration order. The model picks one by a fold, and its contract promises only that the code is paired with that name.
- A missing name or code attribute is modelled as the string "None", as an f-string renders it. Packages whose metadata lacks a code are not otherwise distinguished.
- Catalog.LanguageMap: the source reads the flat `from_name`/`from_code`/`to_name`/`to_code` attributes directly (app.py:86-87), so an installed package of the newer `from_lang`/`to_lang` shape raises AttributeError there. The model builds the map from records that are already normalised and does not model that error.
- Store.PackageStore: installed packages with identical names and codes count as one package. The source could list two such packages (two versions of one pair, or one pair in two package directories), put both in the uninstall set and count both in total_ops. The model's duplicate-free store excludes that case.
- The installed package is identified with the index record of the same value. The library's installed-package objects, download paths and `install_from_path` are not modelled.
- The sorted order of checkbox choices (`sorted(status.keys())`) is presentation. The view keeps the status map.
- The initial dropdown values set in `build_app` are not modelled, only the update functions.
- Reconciler.UpdateLanguages: `uninstall` and `install` failures are modelled as a nondeterministic outcome. A failed run is stated as the prefix of the schedule that was applied, not as a particular exception.
