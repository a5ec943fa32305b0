/** The language catalog: the languages of the installed packages, keyed by
    display name (app.py:82-93), and the default choice of the source and
    target selectors (app.py:252-271). */
module Catalog {
  import opened Common
  import opened Packages
  import opened Ordering

  /** The `(name, code)` tuples get_language_map collects from both sides of
      every installed package. */
  function LanguagePairs(installed: seq<Pkg>): set<(string, string)>
  {
    (set p | p in installed :: (p.fromName, p.fromCode)) + (set p | p in installed :: (p.toName, p.toCode))
  }

  /** `name` is the from-name or the to-name of some installed package. */
  ghost predicate Named(installed: seq<Pkg>, name: string)
  {
    exists p :: p in installed && (p.fromName == name || p.toName == name)
  }

  /** get_language_map: `dict(...)` of the collected tuples. Where one name
      comes with two codes the library keeps an arbitrary one; this fold keeps
      the last one it meets, and the contract promises only "a code paired
      with that name by some installed package". */
  function LanguageMap(installed: seq<Pkg>): (m: map<string, string>)
    ensures forall n :: n in m <==> Named(installed, n)
    ensures forall n :: n in m ==> (n, m[n]) in LanguagePairs(installed)
  {
    if installed == [] then map[]
    else
      var init := installed[..|installed| - 1];
      var p := installed[|installed| - 1];
      assert installed == init + [p];
      assert forall q :: q in installed <==> q in init || q == p;
      LanguageMap(init)[p.fromName := p.fromCode][p.toName := p.toCode]
  }

  /** Every from-name and to-name of the installed packages, in order. */
  function LanguageNames(installed: seq<Pkg>): (names: seq<string>)
    ensures forall n :: n in names <==> Named(installed, n)
  {
    if installed == [] then []
    else
      assert forall q :: q in installed <==> q == installed[0] || q in installed[1..];
      [installed[0].fromName, installed[0].toName] + LanguageNames(installed[1..])
  }

  /** get_installed_language_names: the keys of the language map, sorted. */
  function InstalledLanguageNames(installed: seq<Pkg>): (names: seq<string>)
    ensures Sorted(names)
    ensures forall n :: n in names <==> n in LanguageMap(installed)
  {
    SortedSet(LanguageNames(installed))
  }

  /** The listing depends only on which packages are installed, not on the
      order in which the library enumerates them. */
  lemma InstalledLanguageNamesIgnoreOrder(a: seq<Pkg>, b: seq<Pkg>)
    requires Elems(a) == Elems(b)
    ensures InstalledLanguageNames(a) == InstalledLanguageNames(b)
  {
    forall n ensures Named(a, n) <==> Named(b, n) {
      if Named(a, n) {
        var p :| p in a && (p.fromName == n || p.toName == n);
        assert p in Elems(b);
      }
      if Named(b, n) {
        var p :| p in b && (p.fromName == n || p.toName == n);
        assert p in Elems(a);
      }
    }
    SortedUnique(InstalledLanguageNames(a), InstalledLanguageNames(b));
  }

  /** The preferred name if it is listed, otherwise the first listed name,
      otherwise no selection. */
  function PreferredOrFirst(names: seq<string>, preferred: string): (r: Option<string>)
    ensures r.Some? <==> names != []
    ensures r == Some(preferred) <==> preferred in names
    ensures r.Some? ==> r.value in names
    ensures r.Some? && r.value != preferred ==> r.value == names[0]
  {
    if preferred in names then Some(preferred)
    else if |names| > 0 then Some(names[0])
    else None
  }

  /** What the default choice means for the language map it is drawn from. */
  lemma {:induction false} DefaultChoice(installed: seq<Pkg>, preferred: string)
    ensures var d := PreferredOrFirst(InstalledLanguageNames(installed), preferred);
      && (d.Some? <==> LanguageMap(installed) != map[])
      && (d == Some(preferred) <==> preferred in LanguageMap(installed))
      && (d.Some? ==> d.value in LanguageMap(installed))
      && (d.Some? && d.value != preferred ==>
            forall n :: n in LanguageMap(installed) && n != d.value ==> Less(d.value, n))
  {
    var names := InstalledLanguageNames(installed);
    var m := LanguageMap(installed);
    if names != [] {
      assert names[0] in names;
      forall n | n in m && n != names[0] ensures Less(names[0], n) {
        var j :| 0 <= j < |names| && names[j] == n;
      }
    }
  }

  const SourcePreferred := "Englisch"
  const TargetPreferred := "Deutsch"

  /** get_source_dropdown_update's default value. */
  function SourceDefault(installed: seq<Pkg>): (d: Option<string>)
    ensures d.Some? <==> LanguageMap(installed) != map[]
    ensures d == Some(SourcePreferred) <==> SourcePreferred in LanguageMap(installed)
    ensures d.Some? ==> d.value in LanguageMap(installed)
    ensures d.Some? && d.value != SourcePreferred ==>
      forall n :: n in LanguageMap(installed) && n != d.value ==> Less(d.value, n)
  {
    DefaultChoice(installed, SourcePreferred);
    PreferredOrFirst(InstalledLanguageNames(installed), SourcePreferred)
  }

  /** get_target_dropdown_update's default value. */
  function TargetDefault(installed: seq<Pkg>): (d: Option<string>)
    ensures d.Some? <==> LanguageMap(installed) != map[]
    ensures d == Some(TargetPreferred) <==> TargetPreferred in LanguageMap(installed)
    ensures d.Some? ==> d.value in LanguageMap(installed)
    ensures d.Some? && d.value != TargetPreferred ==>
      forall n :: n in LanguageMap(installed) && n != d.value ==> Less(d.value, n)
  {
    DefaultChoice(installed, TargetPreferred);
    PreferredOrFirst(InstalledLanguageNames(installed), TargetPreferred)
  }
}
