/** The language-pair packages of the translation library, as the rest of the
    model sees them: one record per package, whichever version of the library
    produced it (app.py:97-110), its display name "<from> -> <to>", and the
    index of available packages keyed by that display name (app.py:178-181). */
module Packages {
  import opened Common

  /** A directed language pair: display names and language codes of both sides. */
  datatype Pkg = Pkg(fromName: string, fromCode: string, toName: string, toCode: string)

  /** A language object of the newer library version; either attribute may be missing. */
  datatype LangObject = LangObject(name: Option<string>, code: Option<string>)

  /** One side ("from" or "to") of a package as the library exposes it: newer
      versions carry a `<side>_lang` attribute holding a language object (which
      may itself be None), older ones flat `<side>_name` and `<side>_code`
      attributes, either of which may be missing. */
  datatype RawSide =
    | LangAttr(lang: Option<LangObject>)
    | FlatAttrs(name: Option<string>, code: Option<string>)

  datatype RawPkg = RawPkg(from: RawSide, to: RawSide)

  /** get_pkg_lang_name for one side: the language object's name when the
      side carries one, the flat name attribute otherwise; None when the
      attribute or the object is missing. */
  function ProbeName(side: RawSide): (r: Option<string>)
    ensures side.LangAttr? && side.lang.Some? ==> r == side.lang.value.name
    ensures side == LangAttr(None) ==> r == None
    ensures side.FlatAttrs? ==> r == side.name
  {
    match side
    case LangAttr(lang) => if lang.Some? then lang.value.name else None
    case FlatAttrs(name, _) => name
  }

  /** get_pkg_lang_code for one side, read like the name. */
  function ProbeCode(side: RawSide): (r: Option<string>)
    ensures side.LangAttr? && side.lang.Some? ==> r == side.lang.value.code
    ensures side == LangAttr(None) ==> r == None
    ensures side.FlatAttrs? ==> r == side.code
  {
    match side
    case LangAttr(lang) => if lang.Some? then lang.value.code else None
    case FlatAttrs(_, code) => code
  }

  /** How an f-string renders an attribute that may be None. */
  function Render(v: Option<string>): string
  {
    if v.Some? then v.value else "None"
  }

  /** The single normalisation step at the library boundary: the record's
      display name is the f-string label of the package and its code pair is
      the tuple of its probed codes. */
  function Normalize(raw: RawPkg): (r: Pkg)
    ensures DisplayName(r) == Render(ProbeName(raw.from)) + " -> " + Render(ProbeName(raw.to))
    ensures CodePair(r) == (Render(ProbeCode(raw.from)), Render(ProbeCode(raw.to)))
  {
    Pkg(Render(ProbeName(raw.from)), Render(ProbeCode(raw.from)),
        Render(ProbeName(raw.to)), Render(ProbeCode(raw.to)))
  }

  /** Both library shapes that carry the same names and codes normalise to the
      same record, so no later step depends on the library version. */
  lemma NormalizeIgnoresShape(fromName: Option<string>, fromCode: Option<string>,
                              toName: Option<string>, toCode: Option<string>)
    ensures Normalize(RawPkg(LangAttr(Some(LangObject(fromName, fromCode))), LangAttr(Some(LangObject(toName, toCode)))))
         == Normalize(RawPkg(FlatAttrs(fromName, fromCode), FlatAttrs(toName, toCode)))
    ensures Normalize(RawPkg(FlatAttrs(fromName, fromCode), FlatAttrs(toName, toCode)))
         == Pkg(Render(fromName), Render(fromCode), Render(toName), Render(toCode))
  {
  }

  /** The label "<from> -> <to>" shown for a package. */
  function DisplayName(p: Pkg): string
  {
    p.fromName + " -> " + p.toName
  }

  /** The directed code pair, the canonical identity of a package. */
  function CodePair(p: Pkg): (string, string)
  {
    (p.fromCode, p.toCode)
  }

  function Elems(ps: seq<Pkg>): set<Pkg>
  {
    set p | p in ps
  }

  /** The display names of a list of packages. */
  function Names(ps: seq<Pkg>): set<string>
  {
    set p | p in ps :: DisplayName(p)
  }

  predicate Distinct(ps: seq<Pkg>)
  {
    forall i, j :: 0 <= i < j < |ps| ==> ps[i] != ps[j]
  }

  /** `ps` lists the packages of `s`, each once. */
  ghost predicate Enumerates(ps: seq<Pkg>, s: set<Pkg>)
  {
    Distinct(ps) && Elems(ps) == s
  }

  /** A list that enumerates a set is as long as the set is large. */
  lemma {:induction false} EnumerationLength(ps: seq<Pkg>, s: set<Pkg>)
    requires Enumerates(ps, s)
    ensures |ps| == |s|
    decreases |ps|
  {
    if ps != [] {
      var last := ps[|ps| - 1];
      var init := ps[..|ps| - 1];
      assert ps == init + [last];
      assert last !in init;
      assert Elems(init) == s - {last};
      EnumerationLength(init, s - {last});
    }
  }

  lemma ElemsSnoc(ps: seq<Pkg>, p: Pkg)
    ensures Elems(ps + [p]) == Elems(ps) + {p}
  {
  }

  /** A duplicate-free list drawn from a set is no longer than the set. */
  lemma DistinctWithin(ps: seq<Pkg>, s: set<Pkg>)
    requires Distinct(ps) && Elems(ps) <= s
    ensures |ps| <= |s|
  {
    EnumerationLength(ps, Elems(ps));
    assert s == Elems(ps) + (s - Elems(ps));
  }

  lemma DistinctCons(x: Pkg, ps: seq<Pkg>)
    requires Distinct(ps) && x !in ps
    ensures Distinct([x] + ps)
  {
    var r := [x] + ps;
    forall i, j | 0 <= i < j < |r| ensures r[i] != r[j] {
      assert r[j] == ps[j - 1];
    }
  }

  /** The list with package `p` taken out. */
  function Without(ps: seq<Pkg>, p: Pkg): (r: seq<Pkg>)
    ensures Elems(r) == Elems(ps) - {p}
    ensures Distinct(ps) ==> Distinct(r)
  {
    if ps == [] then []
    else
      var rest := Without(ps[1..], p);
      assert ps == [ps[0]] + ps[1..];
      assert Elems(ps) == {ps[0]} + Elems(ps[1..]);
      assert Distinct(ps) ==> Distinct(ps[1..]) && ps[0] !in Elems(ps[1..]);
      if ps[0] == p then rest
      else
        var r := [ps[0]] + rest;
        assert Elems(r) == {ps[0]} + Elems(rest);
        if Distinct(ps) then DistinctCons(ps[0], rest); r else r
  }

  /** `ps[i]` is the last package of `ps` that carries its display name. */
  ghost predicate LastNamed(ps: seq<Pkg>, i: int)
    requires 0 <= i < |ps|
  {
    forall j :: i < j < |ps| ==> DisplayName(ps[j]) != DisplayName(ps[i])
  }

  /** The index keyed by display name, as the dict comprehension at
      app.py:178-181 builds it: a later package with the same display name
      replaces an earlier one. */
  function NameToPkg(index: seq<Pkg>): (m: map<string, Pkg>)
    ensures m.Keys == Names(index)
    ensures forall n :: n in m ==> m[n] in index && DisplayName(m[n]) == n
    ensures forall i :: 0 <= i < |index| && LastNamed(index, i) ==> m[DisplayName(index[i])] == index[i]
  {
    if index == [] then map[]
    else
      var init := index[..|index| - 1];
      var last := index[|index| - 1];
      assert index == init + [last];
      assert Names(index) == Names(init) + {DisplayName(last)};
      var m := NameToPkg(init)[DisplayName(last) := last];
      forall i | 0 <= i < |index| - 1 && LastNamed(index, i)
        ensures DisplayName(index[i]) != DisplayName(last) && m[DisplayName(index[i])] == index[i]
      {
        assert index[i] == init[i];
        assert LastNamed(init, i);
      }
      m
  }
}
