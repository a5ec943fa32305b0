/** The installed-package store of the translation library: the collaborator
    the reconciler reads once and then changes only through uninstall and
    install calls (app.py:184, 223, 233). Where and how it persists packages
    is the library's business. */
module Store {
  import opened Packages

  class PackageStore {
    /** What get_installed_packages enumerates, each package once. */
    var installed: seq<Pkg>

    ghost predicate Valid()
      reads this
    {
      Distinct(installed)
    }

    constructor (initial: seq<Pkg>)
      requires Distinct(initial)
      ensures Valid() && installed == initial
    {
      installed := initial;
    }

    /** argostranslate.package.uninstall. The library may raise; which calls
        fail is outside this model, so `ok` is left open, and a failed call
        removes nothing. */
    method Uninstall(p: Pkg) returns (ok: bool)
      requires Valid()
      modifies this
      ensures Valid()
      ensures installed == if ok then Without(old(installed), p) else old(installed)
    {
      ok :| true;
      if ok {
        installed := Without(installed, p);
      }
    }

    /** install_from_path(pkg.download()): a download, then an install, either
        of which may raise; a failed call adds nothing. The package then
        installed carries the record the index listed. */
    method Install(p: Pkg) returns (ok: bool)
      requires Valid()
      modifies this
      ensures Valid()
      ensures installed == if ok && p !in old(installed) then old(installed) + [p] else old(installed)
      ensures ok ==> Elems(installed) == Elems(old(installed)) + {p}
    {
      ok :| true;
      if ok && p !in installed {
        assert forall i :: 0 <= i < |installed| ==> (installed + [p])[i] == installed[i];
        installed := installed + [p];
      }
    }
  }
}
