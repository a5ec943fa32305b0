/** The package reconciler, update_languages (app.py:169-240): from the display
    names the user ticked and a fresh copy of the package index it plans which
    installed packages to uninstall and which index packages to install, then
    runs every uninstall before any install against the package store,
    reporting progress `done/total` before each call, and ends with one final
    event that carries refreshed views. */
module Reconciler {
  import opened Common
  import opened Packages
  import opened Ordering
  import opened Catalog
  import opened Status
  import opened Store

  // The plan (app.py:178-201)

  /** packages_to_uninstall: the installed packages whose display name is not desired. */
  function ToUninstall(desired: set<string>, installed: seq<Pkg>): (r: set<Pkg>)
    ensures r <= Elems(installed)
  {
    set p | p in installed && DisplayName(p) !in desired
  }

  /** An installed package is planned for uninstallation iff its display
      name is not selected. */
  lemma UninstallsAreUnselected(desired: set<string>, installed: seq<Pkg>)
    ensures forall p :: p in installed ==> (p in ToUninstall(desired, installed) <==> DisplayName(p) !in desired)
  {
  }

  /** packages_to_install: for each desired name that the index lists and no
      installed package carries, the package the index lists under it. */
  function ToInstall(desired: set<string>, index: seq<Pkg>, installed: seq<Pkg>): (r: set<Pkg>)
    ensures r <= Elems(index)
  {
    var byName := NameToPkg(index);
    set n | n in desired && n in byName && n !in Names(installed) :: byName[n]
  }

  /** What the install set holds: a package is planned for installation iff
      it is the index's package for a selected name that no installed package
      carries. */
  lemma InstallsAreNewIndexedNames(desired: set<string>, index: seq<Pkg>, installed: seq<Pkg>)
    ensures forall p :: p in ToInstall(desired, index, installed) ==>
      && DisplayName(p) in desired && DisplayName(p) !in Names(installed)
      && DisplayName(p) in NameToPkg(index) && NameToPkg(index)[DisplayName(p)] == p
    ensures forall n :: n in desired && n in Names(index) && n !in Names(installed) ==>
      NameToPkg(index)[n] in ToInstall(desired, index, installed)
  {
    var byName := NameToPkg(index);
    forall p | p in ToInstall(desired, index, installed)
      ensures DisplayName(p) in desired && DisplayName(p) !in Names(installed)
        && DisplayName(p) in byName && byName[DisplayName(p)] == p
    {
      var n :| n in desired && n in byName && n !in Names(installed) && p == byName[n];
    }
  }

  /** The two sets split the work cleanly: uninstalls come from the store and
      spare every desired name, installs come from the index, carry a desired
      name no installed package has, and so never overlap the uninstalls. */
  lemma PlanPartition(desired: set<string>, index: seq<Pkg>, installed: seq<Pkg>)
    ensures ToUninstall(desired, installed) <= Elems(installed)
    ensures forall p :: p in installed && DisplayName(p) in desired ==> p !in ToUninstall(desired, installed)
    ensures ToInstall(desired, index, installed) <= Elems(index)
    ensures forall p :: p in ToInstall(desired, index, installed) ==>
      DisplayName(p) in desired && DisplayName(p) !in Names(installed)
    ensures ToInstall(desired, index, installed) !! Elems(installed)
    ensures ToInstall(desired, index, installed) !! ToUninstall(desired, installed)
  {
    var install := ToInstall(desired, index, installed);
    forall p | p in install ensures p in index && DisplayName(p) in desired && DisplayName(p) !in Names(installed) {
      var n :| n in desired && n in NameToPkg(index) && n !in Names(installed) && p == NameToPkg(index)[n];
    }
  }

  /** Reconciling towards the names already installed plans nothing. */
  lemma NothingToDoWhenDesiredIsInstalled(index: seq<Pkg>, installed: seq<Pkg>)
    ensures ToUninstall(Names(installed), installed) == {}
    ensures ToInstall(Names(installed), index, installed) == {}
  {
    forall p | p in installed ensures DisplayName(p) in Names(installed) {
    }
  }

  /** A desired name that the index lists and nothing installed carries is
      installed once, as the index's package, and uninstalls nothing. */
  lemma NewNameIsInstalledOnce(desired: set<string>, index: seq<Pkg>, installed: seq<Pkg>, n: string)
    requires n in desired && n in Names(index) && n !in Names(installed)
    ensures NameToPkg(index)[n] in ToInstall(desired, index, installed)
    ensures forall p :: p in ToInstall(desired, index, installed) && DisplayName(p) == n ==> p == NameToPkg(index)[n]
    ensures forall p :: p in ToUninstall(desired, installed) ==> DisplayName(p) != n
  {
    PlanPartition(desired, index, installed);
    forall p | p in ToInstall(desired, index, installed) && DisplayName(p) == n
      ensures p == NameToPkg(index)[n]
    {
      var k :| k in desired && k in NameToPkg(index) && k !in Names(installed) && p == NameToPkg(index)[k];
    }
    forall p | p in ToUninstall(desired, installed) ensures DisplayName(p) != n {
      assert DisplayName(p) in Names(installed);
    }
  }

  /** Deselecting everything uninstalls each of the N installed packages and
      installs nothing: N operations in all. */
  lemma ClearingUninstallsEverything(index: seq<Pkg>, installed: seq<Pkg>)
    requires Distinct(installed)
    ensures ToUninstall({}, installed) == Elems(installed)
    ensures |ToUninstall({}, installed)| + |ToInstall({}, index, installed)| == |installed|
  {
    assert ToInstall({}, index, installed) == {};
    EnumerationLength(installed, Elems(installed));
  }

  /** The names ticked in the package checkboxes: those the status view
      marks installed (app.py:246). */
  function Checked(status: map<string, bool>): (r: set<string>)
    ensures r <= status.Keys
    ensures forall n :: n in status ==> (n in r <==> status[n])
  {
    set n | n in status && status[n]
  }

  /** Submitting the checkboxes unchanged plans nothing, provided the index
      lists each installed package under its own display name and every index
      name whose code pair is installed is also an installed display name. */
  lemma UnchangedCheckboxesPlanNothing(index: seq<Pkg>, installed: seq<Pkg>)
    requires forall p :: p in installed ==> DisplayName(p) in NameToPkg(index) && NameToPkg(index)[DisplayName(p)] == p
    requires forall n :: n in NameToPkg(index) && CodePair(NameToPkg(index)[n]) in InstalledCodes(installed) ==>
      n in Names(installed)
    ensures ToUninstall(Checked(AllPackagesStatus(Some(index), installed)), installed) == {}
    ensures ToInstall(Checked(AllPackagesStatus(Some(index), installed)), index, installed) == {}
  {
    var status := AllPackagesStatus(Some(index), installed);
    var byName := NameToPkg(index);
    forall p | p in installed ensures DisplayName(p) in Checked(status) {
      assert PairInstalled(installed, CodePair(byName[DisplayName(p)]));
    }
    forall n | n in Checked(status) && n in byName ensures n in Names(installed) {
      var q :| q in installed && CodePair(q) == CodePair(byName[n]);
      assert CodePair(byName[n]) in InstalledCodes(installed);
    }
  }

  /** An installed en->de package whose metadata spells the languages in
      English, and the index's package of the same code pair. */
  const RenamedInstalled := Pkg("English", "en", "German", "de")
  const IndexedEnglishGerman := Pkg("Englisch", "en", "Deutsch", "de")

  lemma RenamedPairIsChecked()
    ensures Checked(AllPackagesStatus(Some([IndexedEnglishGerman]), [RenamedInstalled])) == {EnglishGerman}
  {
    var index := [IndexedEnglishGerman];
    var status := AllPackagesStatus(Some(index), [RenamedInstalled]);
    assert DisplayName(IndexedEnglishGerman) == EnglishGerman;
    assert Names(index) == {EnglishGerman};
    assert EnglishGerman != GermanEnglish by {
      assert EnglishGerman[0] != GermanEnglish[0];
    }
    assert RenamedInstalled in [RenamedInstalled] && CodePair(RenamedInstalled) == ("en", "de");
    assert NameToPkg(index)[EnglishGerman] == IndexedEnglishGerman;
    assert status[EnglishGerman];
    assert !PairInstalled([RenamedInstalled], ("de", "en"));
    assert !status[GermanEnglish];
    assert status.Keys == {EnglishGerman, GermanEnglish};
  }

  /** When the installed metadata spells a pair differently from the index,
      the checkbox of the index name is ticked (same code pair), and
      submitting it unchanged uninstalls the installed package and installs
      the index's one: display names, not codes, drive the plan. */
  lemma RenamedPairIsReinstalled()
    ensures var desired := Checked(AllPackagesStatus(Some([IndexedEnglishGerman]), [RenamedInstalled]));
      && ToUninstall(desired, [RenamedInstalled]) == {RenamedInstalled}
      && ToInstall(desired, [IndexedEnglishGerman], [RenamedInstalled]) == {IndexedEnglishGerman}
  {
    RenamedPairIsChecked();
    assert DisplayName(IndexedEnglishGerman) == EnglishGerman;
    assert DisplayName(RenamedInstalled) != EnglishGerman by {
      assert DisplayName(RenamedInstalled)[6] == 'h' != EnglishGerman[6];
    }
    assert NameToPkg([IndexedEnglishGerman])[EnglishGerman] == IndexedEnglishGerman;
    assert Names([RenamedInstalled]) == {DisplayName(RenamedInstalled)};
  }

  // The operations and the order in which they run (app.py:215-233)

  datatype Op = Remove(pkg: Pkg) | Add(pkg: Pkg)

  function Removals(u: seq<Pkg>): seq<Op>
  {
    seq(|u|, k requires 0 <= k < |u| => Remove(u[k]))
  }

  function Additions(i: seq<Pkg>): seq<Op>
  {
    seq(|i|, k requires 0 <= k < |i| => Add(i[k]))
  }

  /** The uninstalls in the order `u`, then the installs in the order `i`. */
  function Schedule(u: seq<Pkg>, i: seq<Pkg>): seq<Op>
  {
    Removals(u) + Additions(i)
  }

  function ApplyOp(s: set<Pkg>, op: Op): set<Pkg>
  {
    match op
    case Remove(p) => s - {p}
    case Add(p) => s + {p}
  }

  /** The installed packages after running `ops` one after the other. */
  function Apply(s: set<Pkg>, ops: seq<Op>): set<Pkg>
  {
    if ops == [] then s else ApplyOp(Apply(s, ops[..|ops| - 1]), ops[|ops| - 1])
  }

  lemma ApplySnoc(s: set<Pkg>, ops: seq<Op>, op: Op)
    ensures Apply(s, ops + [op]) == ApplyOp(Apply(s, ops), op)
  {
    assert (ops + [op])[..|ops|] == ops;
  }

  lemma {:induction false} ApplyRemovals(s: set<Pkg>, u: seq<Pkg>)
    ensures Apply(s, Removals(u)) == s - Elems(u)
    decreases |u|
  {
    if u != [] {
      var init, last := u[..|u| - 1], u[|u| - 1];
      assert u == init + [last];
      RemovalsSnoc(init, last);
      ApplySnoc(s, Removals(init), Remove(last));
      ApplyRemovals(s, init);
      ElemsSnoc(init, last);
    }
  }

  /** Because every uninstall runs before any install, the store ends up as
      "installed minus the uninstalled, plus the installed", whatever the two
      sets have in common. */
  lemma {:induction false} ApplySchedule(s: set<Pkg>, u: seq<Pkg>, i: seq<Pkg>)
    ensures Apply(s, Schedule(u, i)) == (s - Elems(u)) + Elems(i)
    decreases |i|
  {
    if i == [] {
      assert Schedule(u, i) == Removals(u);
      ApplyRemovals(s, u);
    } else {
      var init := i[..|i| - 1];
      assert Schedule(u, i) == Schedule(u, init) + [Add(i[|i| - 1])];
      ApplySnoc(s, Schedule(u, init), Add(i[|i| - 1]));
      ApplySchedule(s, u, init);
      assert i == init + [i[|i| - 1]];
      assert Elems(i) == Elems(init) + {i[|i| - 1]};
    }
  }

  // Events (the progress calls and the yields of app.py:171-240)

  /** What the final event refreshes: the package checkboxes (app.py:243-249),
      the installed languages and the default source and target selections
      (app.py:252-271). */
  datatype Snapshot = Snapshot(status: map<string, bool>, languages: seq<string>,
                               source: Option<string>, target: Option<string>)

  /** `statusIndex` is what the index refresh inside get_all_packages_status returns. */
  function View(statusIndex: Option<seq<Pkg>>, installed: seq<Pkg>): Snapshot
  {
    Snapshot(AllPackagesStatus(statusIndex, installed), InstalledLanguageNames(installed),
             SourceDefault(installed), TargetDefault(installed))
  }

  /** The refreshed view is consistent: both default pairs are listed, the
      languages are the installed names in order, and each selector holds
      one of them, the preferred one whenever it is listed. */
  lemma ViewIsConsistent(statusIndex: Option<seq<Pkg>>, installed: seq<Pkg>)
    ensures var r := View(statusIndex, installed);
      && EnglishGerman in r.status && GermanEnglish in r.status
      && Sorted(r.languages) && (forall n :: n in r.languages <==> Named(installed, n))
      && (r.source.Some? <==> r.languages != [])
      && (r.target.Some? <==> r.languages != [])
      && (r.source.Some? ==> r.source.value in r.languages)
      && (r.target.Some? ==> r.target.value in r.languages)
      && (r.source == Some(SourcePreferred) <==> SourcePreferred in r.languages)
      && (r.target == Some(TargetPreferred) <==> TargetPreferred in r.languages)
  {
    var languages := InstalledLanguageNames(installed);
    assert languages != [] ==> languages[0] in LanguageMap(installed);
  }

  datatype Event =
    | Started                                     // progress(0, "Starting update...")
    | Progress(done: nat, total: nat, op: Op)     // progress(done / total, ...) before a call
    | NoChanges(view: Snapshot)                   // the "no_changes" yield
    | Updated(view: Snapshot)                     // the "packages_updated" yield

  /** The progress reports for `ops`, numbered from 1. */
  function Reports(ops: seq<Op>, total: nat): seq<Event>
  {
    seq(|ops|, k requires 0 <= k < |ops| => Progress(k + 1, total, ops[k]))
  }

  lemma ReportsSnoc(ops: seq<Op>, op: Op, total: nat)
    ensures Reports(ops + [op], total) == Reports(ops, total) + [Progress(|ops| + 1, total, op)]
  {
  }

  lemma ScheduleAt(u: seq<Pkg>, i: seq<Pkg>, k: nat)
    requires k < |u| + |i|
    ensures |Schedule(u, i)| == |u| + |i|
    ensures Schedule(u, i)[k] == if k < |u| then Remove(u[k]) else Add(i[k - |u|])
  {
  }

  /** Every uninstall comes before any install. */
  lemma UninstallsPrecedeInstalls(u: seq<Pkg>, i: seq<Pkg>)
    ensures forall a, b :: 0 <= a < b < |Schedule(u, i)| && Schedule(u, i)[a].Add? ==> Schedule(u, i)[b].Add?
  {
  }

  /** With the plan enumerated, the schedule has one operation per planned
      package: each package of the two sets exactly once, with the right
      operation, and nothing else. */
  lemma ScheduleCoversPlanOnce(u: seq<Pkg>, i: seq<Pkg>, uninstall: set<Pkg>, install: set<Pkg>)
    requires Enumerates(u, uninstall) && Enumerates(i, install) && uninstall !! install
    ensures var ops := Schedule(u, i);
      && |ops| == |uninstall| + |install|
      && (forall a, b :: 0 <= a < b < |ops| ==> ops[a].pkg != ops[b].pkg)
      && (forall k :: 0 <= k < |ops| ==>
            (ops[k].Remove? && ops[k].pkg in uninstall) || (ops[k].Add? && ops[k].pkg in install))
      && (forall p :: p in uninstall ==> Remove(p) in ops)
      && (forall p :: p in install ==> Add(p) in ops)
  {
    EnumerationLength(u, uninstall);
    EnumerationLength(i, install);
    var ops := Schedule(u, i);
    forall a, b | 0 <= a < b < |ops| ensures ops[a].pkg != ops[b].pkg {
      ScheduleAt(u, i, a);
      ScheduleAt(u, i, b);
      if b < |u| {
        assert u[a] != u[b];
      } else if a >= |u| {
        assert i[a - |u|] != i[b - |u|];
      } else {
        assert u[a] in uninstall && i[b - |u|] in install;
      }
    }
    forall k | 0 <= k < |ops|
      ensures (ops[k].Remove? && ops[k].pkg in uninstall) || (ops[k].Add? && ops[k].pkg in install)
    {
      ScheduleAt(u, i, k);
    }
    forall p | p in uninstall ensures Remove(p) in ops {
      var j :| 0 <= j < |u| && u[j] == p;
      ScheduleAt(u, i, j);
    }
    forall p | p in install ensures Add(p) in ops {
      var j :| 0 <= j < |i| && i[j] == p;
      ScheduleAt(u, i, |u| + j);
    }
  }

  /** The reports of a schedule no longer than `total`: progress `k/total`
      for k = 1, 2, ..., strictly increasing and never above `total`, the
      last one `total/total` when the whole schedule ran. */
  lemma ReportsCountUp(ops: seq<Op>, total: nat)
    requires |ops| <= total
    ensures var reports := Reports(ops, total);
      && (forall k :: 0 <= k < |reports| ==> 0 < reports[k].done <= reports[k].total == total)
      && (forall a, b :: 0 <= a < b < |reports| ==> reports[a].done < reports[b].done)
      && (|ops| == total && reports != [] ==> reports[|reports| - 1].done == reports[|reports| - 1].total)
  {
  }

  /** After a completed run the installed display names are exactly the
      desired names that the index or the store knew. */
  lemma CompletedRunReachesDesired(desired: set<string>, index: seq<Pkg>, installed: seq<Pkg>, after: seq<Pkg>)
    requires Elems(after) == (Elems(installed) - ToUninstall(desired, installed)) + ToInstall(desired, index, installed)
    ensures Names(after) == desired * (Names(index) + Names(installed))
  {
    PlanPartition(desired, index, installed);
    forall n | n in Names(after) ensures n in desired * (Names(index) + Names(installed)) {
      var p :| p in after && DisplayName(p) == n;
      assert p in Elems(after);
      if p in installed {
        assert n in Names(installed);
      } else {
        assert p in index;
        assert n in Names(index);
      }
    }
    forall n | n in desired * (Names(index) + Names(installed)) ensures n in Names(after) {
      if n in Names(installed) {
        var p :| p in installed && DisplayName(p) == n;
        assert p in Elems(after);
      } else {
        var p := NameToPkg(index)[n];
        assert p in ToInstall(desired, index, installed);
        assert p in Elems(after);
      }
    }
  }

  /** Reconciling again with the same selection and the same index, after a
      completed run, plans nothing: the run converges. */
  lemma ReconcileIsStable(desired: set<string>, index: seq<Pkg>, installed: seq<Pkg>, after: seq<Pkg>)
    requires Elems(after) == (Elems(installed) - ToUninstall(desired, installed)) + ToInstall(desired, index, installed)
    ensures ToUninstall(desired, after) == {}
    ensures ToInstall(desired, index, after) == {}
  {
    CompletedRunReachesDesired(desired, index, installed, after);
    PlanPartition(desired, index, installed);
    forall p | p in after ensures DisplayName(p) in desired {
      assert DisplayName(p) in Names(after);
    }
    forall n | n in desired && n in NameToPkg(index) ensures n in Names(after) {
      assert n in Names(index);
    }
  }

  // The reconciliation run (app.py:169-240)

  /** total_ops (app.py:203). */
  function Total(desired: set<string>, index: seq<Pkg>, installed: seq<Pkg>): nat
  {
    |ToUninstall(desired, installed)| + |ToInstall(desired, index, installed)|
  }

  /** What a run of update_languages on a read index promises, relating the
      store `before` and `after` it, the events it emitted, whether it
      completed, and the orders `u` and `i` in which it attempted the
      uninstalls and installs. With nothing to do it reports no changes. Otherwise
      it attempts planned packages only, every uninstall before any install,
      each preceded by a progress report. A completed run attempted all of
      them, leaves exactly the planned state and ends with the refreshed view;
      an aborted run leaves the attempted operations but the last applied and
      ends without a final event. */
  ghost predicate Reconciled(before: seq<Pkg>, after: seq<Pkg>, desired: set<string>, index: seq<Pkg>,
                             statusIndex: Option<seq<Pkg>>, events: seq<Event>, completed: bool,
                             u: seq<Pkg>, i: seq<Pkg>)
  {
    var total := Total(desired, index, before);
    && |events| > 0 && events[0] == Started
    && (total == 0 ==>
          completed && after == before && events == [Started, NoChanges(View(statusIndex, after))])
    && (total > 0 ==>
          PlanRan(Elems(before), Elems(after), ToUninstall(desired, before), ToInstall(desired, index, before),
                  total, View(statusIndex, after), events, completed, u, i))
  }

  /** A run of a non-empty plan of `total` operations, from the installed set
      `before` to `after`, ending on the refreshed view `view` if it completes. */
  ghost predicate PlanRan(before: set<Pkg>, after: set<Pkg>, uninstall: set<Pkg>, install: set<Pkg>,
                          total: nat, view: Snapshot, events: seq<Event>, completed: bool,
                          u: seq<Pkg>, i: seq<Pkg>)
  {
    && Distinct(u) && Elems(u) <= uninstall
    && Distinct(i) && Elems(i) <= install
    && (i != [] ==> Elems(u) == uninstall)
    && (completed ==>
          && Elems(u) == uninstall && Elems(i) == install
          && events == [Started] + Reports(Schedule(u, i), total) + [Updated(view)]
          && after == (before - uninstall) + install)
    && (!completed ==>
          && Schedule(u, i) != []
          && events == [Started] + Reports(Schedule(u, i), total)
          && after == Apply(before, Schedule(u, i)[..|u| + |i| - 1]))
    && CountsWithin(events, total)
    && (completed ==> |events| == total + 2 && EndsAtTotal(events))
  }

  /** What RunPlan's contract amounts to when its total is the plan's size. */
  lemma PlanRanFromRun(before: set<Pkg>, after: set<Pkg>, uninstall: set<Pkg>, install: set<Pkg>,
                       total: nat, view: Snapshot, events: seq<Event>, completed: bool,
                       u: seq<Pkg>, i: seq<Pkg>)
    requires total == |uninstall| + |install| > 0
    requires Distinct(u) && Elems(u) <= uninstall && Distinct(i) && Elems(i) <= install
    requires i != [] ==> Elems(u) == uninstall
    requires completed ==>
      && Elems(u) == uninstall && Elems(i) == install
      && events == [Started] + Reports(Schedule(u, i), total) + [Updated(view)]
      && after == (before - uninstall) + install
    requires !completed ==>
      && Schedule(u, i) != []
      && events == [Started] + Reports(Schedule(u, i), total)
      && after == Apply(before, Schedule(u, i)[..|u| + |i| - 1])
    ensures PlanRan(before, after, uninstall, install, total, view, events, completed, u, i)
  {
    ScheduleWithinPlan(u, i, uninstall, install);
    ProgressEvents(Schedule(u, i), total, events, if completed then [Updated(view)] else []);
  }

  /** update_languages. `index` is what refreshing and reading the package
      index returns (None when that raised, which ends the run after its first
      report); `statusIndex` is what the refresh inside the final views
      returns. The ghost outputs are the orders in which the uninstalls and
      installs were attempted. A store call that fails ends the run without a
      final event and without undoing the calls before it. */
  method UpdateLanguages(store: PackageStore, desired: set<string>,
                         index: Option<seq<Pkg>>, statusIndex: Option<seq<Pkg>>)
    returns (events: seq<Event>, completed: bool, ghost u: seq<Pkg>, ghost i: seq<Pkg>)
    requires store.Valid()
    modifies store
    ensures store.Valid()
    ensures |events| > 0 && events[0] == Started
    ensures index.None? ==> events == [Started] && !completed && store.installed == old(store.installed)
    ensures index.Some? ==>
      Reconciled(old(store.installed), store.installed, desired, index.value, statusIndex, events, completed, u, i)
  {
    if index.None? {
      events, completed, u, i := [Started], false, [], [];
      return;
    }
    events, completed, u, i := Reconcile(store, desired, index.value, statusIndex);
  }

  /** update_languages once the package index has been read (app.py:177-240). */
  method Reconcile(store: PackageStore, desired: set<string>, index: seq<Pkg>, statusIndex: Option<seq<Pkg>>)
    returns (events: seq<Event>, completed: bool, ghost u: seq<Pkg>, ghost i: seq<Pkg>)
    requires store.Valid()
    modifies store
    ensures store.Valid()
    ensures Reconciled(old(store.installed), store.installed, desired, index, statusIndex, events, completed, u, i)
  {
    var before := store.installed;
    var uninstall := ToUninstall(desired, before);
    var install := ToInstall(desired, index, before);
    var total := |uninstall| + |install|;
    assert total == Total(desired, index, before);
    if total == 0 {
      events, completed, u, i := [Started, NoChanges(View(statusIndex, store.installed))], true, [], [];
      return;
    }
    events, completed, u, i := RunPlan(store, uninstall, install, total, statusIndex);
    PlanRanFromRun(Elems(before), Elems(store.installed), uninstall, install, total,
                   View(statusIndex, store.installed), events, completed, u, i);
  }

  /** Every progress event counts within 1..total, and the counts strictly increase. */
  ghost predicate CountsWithin(events: seq<Event>, total: nat)
  {
    && (forall k :: 0 <= k < |events| && events[k].Progress? ==> 1 <= events[k].done <= events[k].total == total)
    && (forall a, b :: 0 <= a < b < |events| && events[a].Progress? && events[b].Progress? ==>
          events[a].done < events[b].done)
  }

  /** The event before the final one is a progress report of total/total. */
  ghost predicate EndsAtTotal(events: seq<Event>)
  {
    |events| >= 2 && events[|events| - 2].Progress? && events[|events| - 2].done == events[|events| - 2].total
  }

  /** The progress events of a run are its reports, between the start event
      and, for a completed run, the final one. */
  lemma ProgressEvents(ops: seq<Op>, total: nat, events: seq<Event>, last: seq<Event>)
    requires |ops| <= total
    requires |last| <= 1 && (last != [] ==> last[0].Updated?)
    requires events == [Started] + Reports(ops, total) + last
    ensures CountsWithin(events, total)
    ensures |events| == |ops| + 1 + |last|
    ensures last != [] && |ops| == total && ops != [] ==> EndsAtTotal(events)
  {
    var reports := Reports(ops, total);
    ReportsCountUp(ops, total);
    forall k | 0 <= k < |events| && events[k].Progress? ensures events[k] == reports[k - 1] {
      assert k != 0;
      if last != [] {
        assert k != |events| - 1;
      }
    }
  }

  /** A run attempts no more operations than the plan holds, and all of them
      when it works through both sets. */
  lemma ScheduleWithinPlan(u: seq<Pkg>, i: seq<Pkg>, uninstall: set<Pkg>, install: set<Pkg>)
    requires Distinct(u) && Elems(u) <= uninstall && Distinct(i) && Elems(i) <= install
    ensures |Schedule(u, i)| <= |uninstall| + |install|
    ensures Elems(u) == uninstall && Elems(i) == install ==> |Schedule(u, i)| == |uninstall| + |install|
  {
    DistinctWithin(u, uninstall);
    DistinctWithin(i, install);
    if Elems(u) == uninstall && Elems(i) == install {
      EnumerationLength(u, uninstall);
      EnumerationLength(i, install);
    }
  }

  /** The uninstalls, then the installs, then the final event (app.py:213-240). */
  method RunPlan(store: PackageStore, uninstall: set<Pkg>, install: set<Pkg>, total: nat,
                 statusIndex: Option<seq<Pkg>>)
    returns (events: seq<Event>, completed: bool, ghost u: seq<Pkg>, ghost i: seq<Pkg>)
    requires store.Valid()
    modifies store
    ensures store.Valid()
    ensures Distinct(u) && Elems(u) <= uninstall && Distinct(i) && Elems(i) <= install
    ensures i != [] ==> Elems(u) == uninstall
    ensures completed ==>
      && Elems(u) == uninstall && Elems(i) == install
      && events == [Started] + Reports(Schedule(u, i), total) + [Updated(View(statusIndex, store.installed))]
      && Elems(store.installed) == (Elems(old(store.installed)) - uninstall) + install
    ensures !completed ==>
      && Schedule(u, i) != []
      && events == [Started] + Reports(Schedule(u, i), total)
      && Elems(store.installed) == Apply(Elems(old(store.installed)), Schedule(u, i)[..|u| + |i| - 1])
  {
    ghost var before := Elems(store.installed);
    i := [];
    var ok, done;
    events, ok, done, u := RunUninstalls(store, uninstall, total);
    if !ok {
      assert Schedule(u, i) == Removals(u);
      assert Schedule(u, i)[..|u| + |i| - 1] == Removals(u)[..|u| - 1];
      completed := false;
      return;
    }
    events, ok, i := RunInstalls(store, install, total, done, u, events);
    ApplyConcat(before, Removals(u), Additions(i));
    if !ok {
      assert Schedule(u, i)[..|u| + |i| - 1] == Removals(u) + Additions(i)[..|i| - 1];
      ApplyConcat(before, Removals(u), Additions(i)[..|i| - 1]);
      completed := false;
      return;
    }
    ApplySchedule(before, u, i);
    var view := View(statusIndex, store.installed);
    events := events + [Updated(view)];
    completed := true;
  }

  /** The uninstall loop (app.py:216-223), numbering its reports from 1. */
  method RunUninstalls(store: PackageStore, uninstall: set<Pkg>, total: nat)
    returns (events: seq<Event>, ok: bool, done: nat, ghost u: seq<Pkg>)
    requires store.Valid()
    modifies store
    ensures store.Valid()
    ensures done == |u|
    ensures Distinct(u) && Elems(u) <= uninstall
    ensures ok ==> Elems(u) == uninstall
    ensures !ok ==> u != []
    ensures events == [Started] + Reports(Removals(u), total)
    ensures Elems(store.installed)
         == Apply(Elems(old(store.installed)), if ok then Removals(u) else Removals(u)[..|u| - 1])
  {
    ghost var before := Elems(store.installed);
    events, u := [Started], [];
    done := 0;
    var remaining := uninstall;
    while remaining != {}
      invariant remaining <= uninstall
      invariant Distinct(u) && Elems(u) == uninstall - remaining
      invariant done == |u|
      invariant events == [Started] + Reports(Removals(u), total)
      invariant store.Valid()
      invariant Elems(store.installed) == Apply(before, Removals(u))
      decreases remaining
    {
      var p :| p in remaining;
      done := done + 1;
      ReportsSnoc(Removals(u), Remove(p), total);
      RemovalsSnoc(u, p);
      assert events + [Progress(done, total, Remove(p))] == [Started] + Reports(Removals(u + [p]), total);
      events := events + [Progress(done, total, Remove(p))];
      ok := store.Uninstall(p);
      ApplySnoc(before, Removals(u), Remove(p));
      DistinctSnoc(u, p);
      u := u + [p];
      remaining := remaining - {p};
      if !ok {
        return;
      }
    }
    ok := true;
  }

  /** The install loop (app.py:226-233), numbering its reports on from the
      `done` uninstalls before it. */
  method RunInstalls(store: PackageStore, install: set<Pkg>, total: nat, done: nat,
                     ghost u: seq<Pkg>, events0: seq<Event>)
    returns (events: seq<Event>, ok: bool, ghost i: seq<Pkg>)
    requires store.Valid()
    requires done == |u| && events0 == [Started] + Reports(Removals(u), total)
    modifies store
    ensures store.Valid()
    ensures Distinct(i) && Elems(i) <= install
    ensures ok ==> Elems(i) == install
    ensures !ok ==> i != []
    ensures events == [Started] + Reports(Schedule(u, i), total)
    ensures Elems(store.installed)
         == Apply(Elems(old(store.installed)), if ok then Additions(i) else Additions(i)[..|i| - 1])
  {
    ghost var before := Elems(store.installed);
    events, i := events0, [];
    assert Schedule(u, i) == Removals(u);
    var opCount := done;
    var remaining := install;
    while remaining != {}
      invariant remaining <= install
      invariant Distinct(i) && Elems(i) == install - remaining
      invariant opCount == |u| + |i|
      invariant events == [Started] + Reports(Schedule(u, i), total)
      invariant store.Valid()
      invariant Elems(store.installed) == Apply(before, Additions(i))
      decreases remaining
    {
      var p :| p in remaining;
      opCount := opCount + 1;
      ReportsSnoc(Schedule(u, i), Add(p), total);
      AdditionsSnoc(u, i, p);
      assert |Schedule(u, i)| + 1 == opCount;
      assert events + [Progress(opCount, total, Add(p))] == [Started] + Reports(Schedule(u, i + [p]), total);
      events := events + [Progress(opCount, total, Add(p))];
      ok := store.Install(p);
      ApplySnoc(before, Additions(i), Add(p));
      DistinctSnoc(i, p);
      i := i + [p];
      remaining := remaining - {p};
      if !ok {
        return;
      }
    }
    ok := true;
  }

  lemma RemovalsSnoc(u: seq<Pkg>, p: Pkg)
    ensures Removals(u + [p]) == Removals(u) + [Remove(p)]
  {
  }

  lemma AdditionsSnoc(u: seq<Pkg>, i: seq<Pkg>, p: Pkg)
    ensures Additions(i + [p]) == Additions(i) + [Add(p)]
    ensures Schedule(u, i + [p]) == Schedule(u, i) + [Add(p)]
  {
    assert Additions(i + [p]) == Additions(i) + [Add(p)];
  }

  lemma {:induction false} ApplyConcat(s: set<Pkg>, a: seq<Op>, b: seq<Op>)
    ensures Apply(s, a + b) == Apply(Apply(s, a), b)
    decreases |b|
  {
    if b != [] {
      var init := b[..|b| - 1];
      assert a + b == (a + init) + [b[|b| - 1]];
      ApplySnoc(s, a + init, b[|b| - 1]);
      ApplySnoc(Apply(s, a), init, b[|b| - 1]);
      ApplyConcat(s, a, init);
    } else {
      assert a + b == a;
    }
  }

  lemma DistinctSnoc(ps: seq<Pkg>, p: Pkg)
    requires Distinct(ps) && p !in ps
    ensures Distinct(ps + [p]) && Elems(ps + [p]) == Elems(ps) + {p}
  {
  }
}
